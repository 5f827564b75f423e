/** What the individual steps of src/components/sanitise.ts:5-16 do to
    their input: which steps can change the length and by how much, what
    the rewriting steps put in place of a match, when a tag block survives,
    and which expressions care about letter case. */
module Properties {
  import opened Text
  import opened Patterns
  import opened Matching
  import opened Replace
  import opened Sanitise

  // ---------------------------------------------------------------------
  // Every replaced span is a longest match of the step's expression

  /** The spans a step replaces are the leftmost, non-overlapping places
      where its expression matches, each the longest prefix in the
      expression's language, which is JavaScript's match by the argument in
      the README. */
  lemma StepReplacesLongestMatches(rule: Rule, s: string)
    requires Supported(rule.pattern)
    ensures LeftmostMatches(MatcherOf(rule.pattern), s, 0, Matches(MatcherOf(rule.pattern), s, 0))
    ensures forall sp :: sp in Matches(MatcherOf(rule.pattern), s, 0) ==>
      sp.start + sp.len <= |s| && IsLongestMatch(rule.pattern, s[sp.start..], sp.len)
    ensures Ordered(Matches(MatcherOf(rule.pattern), s, 0), 0, |s|)
    ensures Apply(rule, s) == Splice(s, Matches(MatcherOf(rule.pattern), s, 0), 0, rule.replacement)
  {
    var m := MatcherOf(rule.pattern);
    var spans := Matches(m, s, 0);
    ReplaceAllIsSplice(m, rule.replacement, s);
    LeftmostAreMatches(m, s, 0, spans);
    forall sp | sp in spans
      ensures sp.start + sp.len <= |s| && IsLongestMatch(rule.pattern, s[sp.start..], sp.len)
    {
      MatchAtCorrect(rule.pattern, s[sp.start..]);
    }
  }

  // ---------------------------------------------------------------------
  // Lengths

  /** A deleting step (lines 5-12, 15 and 16) removes the spans of its
      matches and keeps the rest in order: it is the identity exactly when
      nothing matches and shortens its input otherwise. */
  lemma DeletionStep(rule: Rule, s: string)
    requires rule.replacement == ""
    ensures Ordered(Matches(MatcherOf(rule.pattern), s, 0), 0, |s|)
    ensures Apply(rule, s) == Splice(s, Matches(MatcherOf(rule.pattern), s, 0), 0, "")
    ensures |Apply(rule, s)| == |s| - TotalLen(Matches(MatcherOf(rule.pattern), s, 0))
    ensures Apply(rule, s) == s <==> NoMatchIn(MatcherOf(rule.pattern), s, 0, |s|)
    ensures |Apply(rule, s)| < |s| <==> !NoMatchIn(MatcherOf(rule.pattern), s, 0, |s|)
  {
    DeletionRemovesSpans(MatcherOf(rule.pattern), s);
  }

  /** The rules that delete are all but the two `position` rewrites. */
  lemma DeletingRules(k: nat)
    requires k < |Rules|
    ensures Rules[k].replacement == "" <==> k != FixedRule && k != FixedRule + 1
    ensures k == FixedRule ==> Rules[k] == Rule(Position("fixed"), "position:relative")
    ensures k == FixedRule + 1 ==> Rules[k] == Rule(Position("absolute"), "position:relative")
  {
  }

  /** A match of `position\s*:\s*keyword` is at least `position:keyword`. */
  lemma PositionMatchLength(keyword: string, t: string)
    requires MatchAt(Position(keyword), t).Some?
    ensures MatchAt(Position(keyword), t).value >= 9 + |keyword|
  {
    var a := 8 + Run(t, 8, Space);
    var b := a + 1 + Run(t, a + 1, Space);
    assert MatchAt(Position(keyword), t).value == b + |keyword|;
  }

  /** Lines 13 and 14 put exactly `position:relative` in place of each
      match and keep everything between the matches. */
  lemma RewriteStep(keyword: string, s: string)
    ensures Ordered(Matches(MatcherOf(Position(keyword)), s, 0), 0, |s|)
    ensures Apply(Rule(Position(keyword), "position:relative"), s)
            == Splice(s, Matches(MatcherOf(Position(keyword)), s, 0), 0, "position:relative")
  {
    ReplaceAllIsSplice(MatcherOf(Position(keyword)), "position:relative", s);
  }

  /** Every match of a `position` expression is at least `position:keyword`. */
  lemma PositionMatchesAtLeast(keyword: string)
    ensures forall t :: MatcherOf(Position(keyword))(t).Some? ==>
      MatcherOf(Position(keyword))(t).value >= 9 + |keyword|
  {
    forall t | MatcherOf(Position(keyword))(t).Some?
      ensures MatcherOf(Position(keyword))(t).value >= 9 + |keyword|
    {
      PositionMatchLength(keyword, t);
    }
  }

  /** Line 14 never lengthens its input: a match is at least
      `position:absolute` long, as long as `position:relative`. */
  lemma AbsoluteStepNeverLengthens(s: string)
    ensures |Apply(Rule(Position("absolute"), "position:relative"), s)| <= |s|
  {
    PositionMatchesAtLeast("absolute");
    assert |"absolute"| == 8 && |"position:relative"| == 17;
    ReplaceNeverLengthens(MatcherOf(Position("absolute")), "position:relative", s);
  }

  /** Line 13 is the one step that can lengthen its input: each match, at
      least `position:fixed` long, grows by at most three characters. */
  lemma FixedStepGrowth(s: string)
    ensures |Apply(Rule(Position("fixed"), "position:relative"), s)|
            <= |s| + 3 * |Matches(MatcherOf(Position("fixed")), s, 0)|
  {
    PositionMatchesAtLeast("fixed");
    assert |"fixed"| == 5 && |"position:relative"| == 17;
    ReplaceLengthBound(MatcherOf(Position("fixed")), "position:relative", s, 14);
  }

  /** Every step but line 13 returns a string no longer than its input. */
  lemma StepNeverLengthens(k: nat, s: string)
    requires k < |Rules| && k != FixedRule
    ensures |Apply(Rules[k], s)| <= |s|
  {
    DeletingRules(k);
    var rule := Rules[k];
    if k == FixedRule + 1 {
      AbsoluteStepNeverLengthens(s);
    } else {
      DeletionStep(rule, s);
    }
  }

  // ---------------------------------------------------------------------
  // Tag blocks

  /** An opening tag with no closing tag anywhere after it is left in place:
      without a closing tag the block expression matches nowhere. */
  lemma UnclosedTagKept(tag: string, s: string)
    requires forall q :: 0 <= q <= |s| ==> !StartsWithCiAt(s, q, CloseTag(tag))
    ensures Apply(Rule(Element(tag), ""), s) == s
  {
    var m := MatcherOf(Element(tag));
    forall k | 0 <= k < |s|
      ensures m(s[k..]).None?
    {
      var t := s[k..];
      if StartsWithCiAt(t, 0, OpenTag(tag)) && WordBoundaryAt(t, |OpenTag(tag)|) {
        forall q | |OpenTag(tag)| <= q <= |t|
          ensures !StartsWithCiAt(t, q, CloseTag(tag))
        {
          StartsWithCiInSuffix(s, k, q, CloseTag(tag));
        }
        assert FindCi(t, |OpenTag(tag)|, CloseTag(tag)).None?;
      }
    }
    ReplaceWithoutMatch(m, "", s);
  }

  /** The shape of the two tag literals: both start with `<`, no later
      character of either folds to `<`, and the closing tag's second
      character is `/`, which the opening tag's is not. */
  lemma TagShape(tag: string)
    requires WordTag(tag)
    ensures OpenTag(tag)[0] == '<' && CloseTag(tag)[0] == '<' && CloseTag(tag)[1] == '/'
    ensures forall d :: 1 <= d < |OpenTag(tag)| ==> Fold(OpenTag(tag)[d]) != '<' && Fold(OpenTag(tag)[d]) != '/'
    ensures forall d :: 1 <= d < |CloseTag(tag)| ==> Fold(CloseTag(tag)[d]) != '<'
  {
    forall d | 1 <= d < |OpenTag(tag)|
      ensures Fold(OpenTag(tag)[d]) != '<' && Fold(OpenTag(tag)[d]) != '/'
    {
      assert OpenTag(tag)[d] == tag[d - 1];
    }
    forall d | 1 <= d < |CloseTag(tag)|
      ensures Fold(CloseTag(tag)[d]) != '<'
    {
      if 2 <= d < |tag| + 2 {
        assert CloseTag(tag)[d] == tag[d - 2];
      }
    }
  }

  lemma CiCharAt(s: string, i: nat, lit: string, d: nat)
    requires StartsWithCiAt(s, i, lit) && d < |lit|
    ensures Fold(s[i + d]) == Fold(lit[d])
  {
  }

  /** An opening and a closing tag of a word tag name never start at the
      same index: their second characters differ. */
  lemma SecondCharClash(tag: string, s: string, k: nat)
    requires WordTag(tag) && StartsWithCiAt(s, k, OpenTag(tag))
    ensures !StartsWithCiAt(s, k, CloseTag(tag))
  {
    TagShape(tag);
    CiCharAt(s, k, OpenTag(tag), 1);
  }

  /** A closing tag that starts before the end of an opening tag of a word
      tag name ends at or before that opening tag: neither `</tag>` after
      its first character nor `<tag` after its first character holds a `<`,
      and a tag name cannot start with `/`. */
  lemma CloseBeforeOpen(tag: string, s: string, k: nat, q: nat)
    requires WordTag(tag)
    requires StartsWithCiAt(s, k, OpenTag(tag)) && StartsWithCiAt(s, q, CloseTag(tag))
    requires q < k + |OpenTag(tag)|
    ensures q + |CloseTag(tag)| <= k
  {
    var open, close := OpenTag(tag), CloseTag(tag);
    TagShape(tag);
    CiCharAt(s, k, open, 0);
    CiCharAt(s, q, close, 0);
    if q + |close| > k {
      if q < k {
        CiCharAt(s, q, close, k - q);
      } else if q == k {
        SecondCharClash(tag, s, k);
      } else {
        CiCharAt(s, k, open, q - k);
      }
    }
  }

  /** No block match starts at or after `k` when no closing tag follows
      the opening tag at `k`. */
  lemma ElementQuietAfter(tag: string, s: string, k: nat)
    requires k <= |s|
    requires forall q :: k + |OpenTag(tag)| <= q <= |s| ==> !StartsWithCiAt(s, q, CloseTag(tag))
    ensures NoMatchIn(MatcherOf(Element(tag)), s, k, |s|)
  {
    var open, close := OpenTag(tag), CloseTag(tag);
    forall j | k <= j < |s|
      ensures MatchAt(Element(tag), s[j..]).None?
    {
      var t := s[j..];
      if StartsWithCiAt(t, 0, open) && WordBoundaryAt(t, |open|) {
        forall q | |open| <= q <= |t|
          ensures !StartsWithCiAt(t, q, close)
        {
          StartsWithCiInSuffix(s, j, q, close);
        }
        assert FindCi(t, |open|, close).None?;
      }
    }
  }

  /** A block match that starts before the opening tag at `k` ends at or
      before `k` when no closing tag follows that opening tag. */
  lemma ElementEndsBefore(tag: string, s: string, k: nat, j: nat)
    requires WordTag(tag) && StartsWithCiAt(s, k, OpenTag(tag))
    requires forall q :: k + |OpenTag(tag)| <= q <= |s| ==> !StartsWithCiAt(s, q, CloseTag(tag))
    requires j < k && MatchAt(Element(tag), s[j..]).Some?
    ensures j + MatchAt(Element(tag), s[j..]).value <= k
  {
    var open, close := OpenTag(tag), CloseTag(tag);
    var t := s[j..];
    var q :| FindCi(t, |open|, close) == Some(q) && MatchAt(Element(tag), t) == Some(q + |close|);
    StartsWithCiInSuffix(s, j, q, close);
    CloseBeforeOpen(tag, s, k, j + q);
  }

  /** An opening tag of a word tag name with no closing tag after it
      survives the block step, and so does everything after it: no block
      match starts at or after it, and none that starts before it reaches
      into it. */
  lemma UnclosedTagSurvives(tag: string, s: string, k: nat)
    requires WordTag(tag) && StartsWithCiAt(s, k, OpenTag(tag))
    requires forall q :: k + |OpenTag(tag)| <= q <= |s| ==> !StartsWithCiAt(s, q, CloseTag(tag))
    ensures EndsWith(Apply(Rule(Element(tag), ""), s), s[k..])
  {
    var m := MatcherOf(Element(tag));
    ElementQuietAfter(tag, s, k);
    forall j | 0 <= j < k && m(s[j..]).Some?
      ensures j + m(s[j..]).value <= k
    {
      ElementEndsBefore(tag, s, k, j);
    }
    ReplaceKeepsTail(m, "", s, 0, k);
  }

  // ---------------------------------------------------------------------
  // Letter case

  lemma ElementIgnoresCase(tag: string, t: string, u: string)
    requires SameUpToCase(t, u)
    ensures ElementMatch(tag, t) == ElementMatch(tag, u)
  {
    var open := OpenTag(tag);
    StartsWithCiIgnoresCase(t, u, 0, open);
    if |open| < |t| {
      ClassIgnoresCase(Word, t[|open|], u[|open|]);
    }
    if 0 < |open| <= |t| {
      ClassIgnoresCase(Word, t[|open| - 1], u[|open| - 1]);
    }
    if |open| <= |t| {
      FindCiIgnoresCase(t, u, |open|, CloseTag(tag));
    }
  }

  lemma HandlerEqualsIgnoresCase(t: string, u: string)
    requires SameUpToCase(t, u) && 2 <= |t|
    ensures HandlerEquals(t) == HandlerEquals(u)
  {
    RunIgnoresCase(t, u, 2, Word);
    var e := 2 + Run(t, 2, Word);
    if e < |t| {
      FoldNonLetter(u[e], '=');
      FoldNonLetter(t[e], '=');
    }
  }

  /** `HandlerValue` looks only at where the `=` is and how far the value
      runs. */
  lemma HandlerValueAlike(t: string, u: string)
    requires 2 <= |t| == |u| && HandlerEquals(t) == HandlerEquals(u)
    requires HandlerEquals(t).Some? ==>
      var e := HandlerEquals(t).value; Run(t, e + 1, NotSpaceOrGt) == Run(u, e + 1, NotSpaceOrGt)
    ensures HandlerValue(t) == HandlerValue(u)
  {
  }

  lemma HandlerValueIgnoresCase(t: string, u: string)
    requires SameUpToCase(t, u) && 2 <= |t|
    ensures HandlerValue(t) == HandlerValue(u)
  {
    HandlerEqualsIgnoresCase(t, u);
    if HandlerEquals(t).Some? {
      RunIgnoresCase(t, u, HandlerEquals(t).value + 1, NotSpaceOrGt);
    }
    HandlerValueAlike(t, u);
  }

  lemma UnquotedIgnoresCase(t: string, u: string)
    requires SameUpToCase(t, u)
    ensures UnquotedMatch(t) == UnquotedMatch(u)
  {
    StartsWithCiIgnoresCase(t, u, 0, "on");
    if StartsWithCiAt(t, 0, "on") {
      HandlerValueIgnoresCase(t, u);
    }
  }

  /** The name, white space, `:` and white space that open a declaration
      are read alike in both strings. */
  lemma ColonValueIgnoresCase(t: string, u: string, i: nat)
    requires SameUpToCase(t, u) && i <= |t|
    ensures ColonValue(t, i) == ColonValue(u, i)
  {
    RunIgnoresCase(t, u, i, Space);
    var a := i + Run(t, i, Space);
    if a < |t| {
      assert Fold(t[a]) == Fold(u[a]);
      FoldNonLetter(t[a], ':');
      FoldNonLetter(u[a], ':');
      RunIgnoresCase(t, u, a + 1, Space);
    }
  }

  lemma ValueStartIgnoresCase(name: string, t: string, u: string)
    requires SameUpToCase(t, u)
    ensures ValueStart(name, t) == ValueStart(name, u)
  {
    StartsWithCiIgnoresCase(t, u, 0, name);
    if StartsWithCiAt(t, 0, name) {
      ColonValueIgnoresCase(t, u, |name|);
    }
  }

  lemma PositionIgnoresCase(keyword: string, t: string, u: string)
    requires SameUpToCase(t, u)
    ensures PositionMatch(keyword, t) == PositionMatch(keyword, u)
  {
    ValueStartIgnoresCase("position", t, u);
    if ValueStart("position", t).Some? {
      StartsWithCiIgnoresCase(t, u, ValueStart("position", t).value, keyword);
    }
  }

  lemma OffsetIgnoresCase(property: string, t: string, u: string)
    requires SameUpToCase(t, u)
    ensures OffsetMatch(property, t) == OffsetMatch(property, u)
  {
    ValueStartIgnoresCase(property, t, u);
    if ValueStart(property, t).Some? {
      RunIgnoresCase(t, u, ValueStart(property, t).value, Digit);
    }
  }

  /** The case-insensitive expressions (lines 5, 8 and 10-16) match two
      strings that differ only in ASCII case alike. */
  lemma IgnoresCase(p: Pattern, t: string, u: string)
    requires !p.QuotedHandler? && !p.JavascriptScheme?
    requires SameUpToCase(t, u)
    ensures MatchAt(p, t) == MatchAt(p, u)
  {
    match p {
      case Element(tag) => ElementIgnoresCase(tag, t, u);
      case UnquotedHandler => UnquotedIgnoresCase(t, u);
      case Position(keyword) => PositionIgnoresCase(keyword, t, u);
      case Offset(property) => OffsetIgnoresCase(property, t, u);
    }
  }

  /** The quoted-handler expressions (lines 6 and 7) are case-sensitive:
      they only match a lower-case `on`. */
  lemma QuotedNeedsLowerCaseOn(quote: char, t: string)
    requires MatchAt(QuotedHandler(quote), t).Some?
    ensures t[0] == 'o' && t[1] == 'n'
  {
    assert StartsWithAt(t, 0, "on");
    assert t[0 + 0] == "on"[0] && t[0 + 1] == "on"[1];
  }

  /** The scheme expression (line 9) is case-sensitive: it only matches a
      lower-case `javascript:`. */
  lemma SchemeNeedsLowerCase(t: string)
    requires MatchAt(JavascriptScheme, t).Some?
    ensures |t| >= 11 && t[..11] == "javascript:"
  {
    assert StartsWithAt(t, 0, "javascript:");
  }
}
