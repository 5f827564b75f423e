/** The six shapes of regular expression in src/components/sanitise.ts:5-16,
    each given twice: as the set of strings the expression denotes
    (`InLanguage`, read off the expression's syntax) and as a deterministic
    matcher (`MatchAt`) that anchors at the start of the remaining input and
    answers the length of the longest prefix in the expression's language,
    which is JavaScript's match by the argument below.

    JavaScript's backtracking matcher returns the first match in priority
    order. In these expressions every greedy quantifier is followed by a token
    its class excludes (`\w+` by `=`, `\s*` by `:` or a letter, `[^<]*` by
    `<`, `[^"]*` by `"`), except a quantifier that ends the expression. The
    group `(?:(?!<\/tag>)<[^<]*)*` of the element expression and the `<\/tag>`
    after it both start with `<`: only the lookahead separates them, and it
    ends the group at the first closing tag, which `ElementMatch` finds by
    searching for the first `</tag>`. So the only choice left is how far the
    final quantifier runs, and the first match in priority order is the
    longest prefix in the language. This agreement with JavaScript is
    argued, not proved; module `Matching` proves that `MatchAt` returns
    exactly the longest prefix in the language, and nothing when no prefix
    is in it. */
module Patterns {
  import opened Text

  datatype Pattern =
    // `/<tag\b[^<]*(?:(?!<\/tag>)<[^<]*)*<\/tag>/gi`
    | Element(tag: string)
    // `/on\w+="[^"]*"/g` and `/on\w+='[^']*'/g`
    | QuotedHandler(quote: char)
    // `/on\w+=[^>\s]*/gi`
    | UnquotedHandler
    // `/javascript:[^\s>]*/g`
    | JavascriptScheme
    // `/position\s*:\s*keyword/gi`
    | Position(keyword: string)
    // `/property\s*:\s*\d+/gi`
    | Offset(property: string)

  function OpenTag(tag: string): string { "<" + tag }
  function CloseTag(tag: string): string { "</" + tag + ">" }

  /** A tag name made of word characters, as `script`, `iframe`, `object`
      and `embed` are. */
  predicate WordTag(tag: string) {
    |tag| > 0 && forall k :: 0 <= k < |tag| ==> IsWordChar(tag[k])
  }

  /** The patterns for which the longest-prefix reading above is exact: a
      `Position` keyword must start with a letter, so that the `\s*` before
      it cannot give characters back to it. */
  predicate Supported(p: Pattern) {
    p.Position? ==> |p.keyword| > 0 && 'a' <= p.keyword[0] <= 'z'
  }

  // ---------------------------------------------------------------------
  // The languages

  ghost predicate ElementLang(tag: string, w: string) {
    var open, close := OpenTag(tag), CloseTag(tag);
    |open| + |close| <= |w|
    && StartsWithCiAt(w, 0, open)
    && WordBoundaryAt(w, |open|)
    && StartsWithCiAt(w, |w| - |close|, close)
    // every `<` consumed by the loop passed the `(?!<\/tag>)` lookahead
    && forall q :: |open| <= q < |w| - |close| && w[q] == '<' ==> !StartsWithCiAt(w, q, close)
  }

  /** `w` splits as `on`, a word run ending at `e`, `=`, quote, value, quote. */
  ghost predicate QuotedShape(quote: char, w: string, e: int) {
    3 <= e && e + 3 <= |w|
    && StartsWithAt(w, 0, "on")
    && (forall k :: 2 <= k < e ==> IsWordChar(w[k]))
    && w[e] == '=' && w[e + 1] == quote && w[|w| - 1] == quote
    && forall k :: e + 2 <= k < |w| - 1 ==> w[k] != quote
  }

  /** `w` splits as `on` (any case), a word run ending at `e`, `=`, value. */
  ghost predicate UnquotedShape(w: string, e: int) {
    3 <= e < |w|
    && StartsWithCiAt(w, 0, "on")
    && (forall k :: 2 <= k < e ==> IsWordChar(w[k]))
    && w[e] == '='
    && forall k :: e < k < |w| ==> In(NotSpaceOrGt, w[k])
  }

  ghost predicate JavascriptLang(w: string) {
    StartsWithAt(w, 0, "javascript:")
    && forall k :: 11 <= k < |w| ==> In(NotSpaceOrGt, w[k])
  }

  /** `w` splits as `position`, spaces, `:` at `a`, spaces, keyword at `b`. */
  ghost predicate PositionShape(keyword: string, w: string, a: int, b: int) {
    8 <= a < b && b + |keyword| == |w|
    && StartsWithCiAt(w, 0, "position")
    && (forall k :: 8 <= k < a ==> IsSpace(w[k]))
    && w[a] == ':'
    && (forall k :: a < k < b ==> IsSpace(w[k]))
    && StartsWithCiAt(w, b, keyword)
  }

  /** `w` splits as the property, spaces, `:` at `a`, spaces, digits from `b`. */
  ghost predicate OffsetShape(property: string, w: string, a: int, b: int) {
    |property| <= a < b < |w|
    && StartsWithCiAt(w, 0, property)
    && (forall k :: |property| <= k < a ==> IsSpace(w[k]))
    && w[a] == ':'
    && (forall k :: a < k < b ==> IsSpace(w[k]))
    && forall k :: b <= k < |w| ==> IsDigit(w[k])
  }

  /** `w` is one of the strings the expression of `p` denotes. */
  ghost predicate InLanguage(p: Pattern, w: string) {
    match p
    case Element(tag) => ElementLang(tag, w)
    case QuotedHandler(quote) => exists e :: QuotedShape(quote, w, e)
    case UnquotedHandler => exists e :: UnquotedShape(w, e)
    case JavascriptScheme => JavascriptLang(w)
    case Position(keyword) => exists a, b :: PositionShape(keyword, w, a, b)
    case Offset(property) => exists a, b :: OffsetShape(property, w, a, b)
  }

  /** `n` is the longest prefix length of `t` that is in the language. */
  ghost predicate IsLongestMatch(p: Pattern, t: string, n: nat) {
    n <= |t| && InLanguage(p, t[..n])
    && forall m :: 0 <= m <= |t| && InLanguage(p, t[..m]) ==> m <= n
  }

  ghost predicate NoPrefixInLanguage(p: Pattern, t: string) {
    forall m :: 0 <= m <= |t| ==> !InLanguage(p, t[..m])
  }

  // ---------------------------------------------------------------------
  // The matchers

  /** `<tag` not followed by a word character, then up to and including the
      first `</tag>` after it; no match when there is no such closing tag. */
  function ElementMatch(tag: string, t: string): (r: Option<nat>)
    ensures r.Some? ==> 0 < r.value <= |t|
  {
    var open, close := OpenTag(tag), CloseTag(tag);
    if StartsWithCiAt(t, 0, open) && WordBoundaryAt(t, |open|) then
      match FindCi(t, |open|, close)
      case Some(j) => Some(j + |close|)
      case None => None
    else None
  }

  /** The index of the `=` after `on` and its word run, if there is one. */
  function HandlerEquals(t: string): (r: Option<nat>)
    requires 2 <= |t|
    ensures r.Some? ==> 3 <= r.value < |t| && t[r.value] == '='
    ensures r.Some? ==> forall k :: 2 <= k < r.value ==> IsWordChar(t[k])
  {
    var e := 2 + Run(t, 2, Word);
    if e > 2 && e < |t| && t[e] == '=' then Some(e) else None
  }

  function QuotedMatch(quote: char, t: string): (r: Option<nat>)
    ensures r.Some? ==> 0 < r.value <= |t|
  {
    if StartsWithAt(t, 0, "on") then
      match HandlerEquals(t)
      case Some(e) =>
        if e + 1 < |t| && t[e + 1] == quote then
          match FindChar(t, e + 2, quote)
          case Some(j) => Some(j + 1)
          case None => None
        else None
      case None => None
    else None
  }

  /** The end of `word=value` after the two letters of `on`, the value
      running up to the first white space or `>`. */
  function HandlerValue(t: string): (r: Option<nat>)
    requires 2 <= |t|
    ensures r.Some? ==> 3 < r.value <= |t|
  {
    match HandlerEquals(t)
    case Some(e) => Some(e + 1 + Run(t, e + 1, NotSpaceOrGt))
    case None => None
  }

  function UnquotedMatch(t: string): (r: Option<nat>)
    ensures r.Some? ==> 0 < r.value <= |t|
  {
    if StartsWithCiAt(t, 0, "on") then HandlerValue(t) else None
  }

  function JavascriptMatch(t: string): (r: Option<nat>)
    ensures r.Some? ==> 0 < r.value <= |t|
  {
    if StartsWithAt(t, 0, "javascript:") then Some(11 + Run(t, 11, NotSpaceOrGt)) else None
  }

  /** The index just after white space, `:` and white space from `i` on,
      if `t` goes on that way from there. */
  function ColonValue(t: string, i: nat): (r: Option<nat>)
    requires i <= |t|
    ensures r.Some? ==> i < r.value <= |t|
  {
    var a := i + Run(t, i, Space);
    if a < |t| && t[a] == ':' then Some(a + 1 + Run(t, a + 1, Space)) else None
  }

  /** The index just after `name`, white space, `:` and white space at the
      start of `t`: where the value of a declaration such as `position:`
      begins. None when `t` does not start that way. */
  function ValueStart(name: string, t: string): (r: Option<nat>)
    ensures r.Some? ==> |name| < r.value <= |t|
  {
    if StartsWithCiAt(t, 0, name) then ColonValue(t, |name|) else None
  }

  function PositionMatch(keyword: string, t: string): (r: Option<nat>)
    ensures r.Some? ==> 0 < r.value <= |t|
  {
    match ValueStart("position", t)
    case Some(b) => if StartsWithCiAt(t, b, keyword) then Some(b + |keyword|) else None
    case None => None
  }

  function OffsetMatch(property: string, t: string): (r: Option<nat>)
    ensures r.Some? ==> 0 < r.value <= |t|
  {
    match ValueStart(property, t)
    case Some(b) =>
      var d := Run(t, b, Digit);
      if d > 0 then Some(b + d) else None
    case None => None
  }

  /** The longest prefix of `t` in the expression's language, which is
      JavaScript's match by the argument above. Every match is non-empty,
      which is what lets a global replace move on after each one. */
  function MatchAt(p: Pattern, t: string): (r: Option<nat>)
    ensures r.Some? ==> 0 < r.value <= |t|
  {
    match p
    case Element(tag) => ElementMatch(tag, t)
    case QuotedHandler(quote) => QuotedMatch(quote, t)
    case UnquotedHandler => UnquotedMatch(t)
    case JavascriptScheme => JavascriptMatch(t)
    case Position(keyword) => PositionMatch(keyword, t)
    case Offset(property) => OffsetMatch(property, t)
  }
}
