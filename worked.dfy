/** Worked families of inputs for the element steps of
    src/components/sanitise.ts:5 and 10-12, the unquoted-handler step of
    line 8 and the scheme step of line 9, derived from the definitions one
    scan position at a time. */
module Worked {
  import opened Text
  import opened Patterns
  import opened Replace
  import opened Sanitise

  /** No character of `x` is `<`. */
  predicate NoOpen(x: string) {
    forall k :: 0 <= k < |x| ==> x[k] != '<'
  }

  /** Where no `<` occurs, no element block starts. */
  lemma NoOpenNoElement(tag: string, s: string, i: nat, j: nat)
    requires i <= j <= |s|
    requires forall k :: i <= k < j ==> s[k] != '<'
    ensures NoMatchIn(MatcherOf(Element(tag)), s, i, j)
  {
    forall k | i <= k < j
      ensures MatchAt(Element(tag), s[k..]).None?
    {
      if MatchAt(Element(tag), s[k..]).Some? {
        MatchStartsWithLead(Element(tag), s, k);
      }
    }
  }

  /** `<tag`, a body without `<` that does not start with a word character,
      and `</tag>` form one block, whatever follows it. */
  lemma BlockMatch(tag: string, x: string, rest: string)
    requires |tag| > 0 && IsWordChar(tag[|tag| - 1])
    requires NoOpen(x) && (x == [] || !IsWordChar(x[0]))
    ensures ElementMatch(tag, OpenTag(tag) + x + CloseTag(tag) + rest)
      == Some(|OpenTag(tag) + x + CloseTag(tag)|)
  {
    BlockLayout(tag, x, OpenTag(tag) + x + CloseTag(tag) + rest);
  }

  lemma BlockLayout(tag: string, x: string, t: string)
    requires |tag| > 0 && IsWordChar(tag[|tag| - 1])
    requires NoOpen(x) && (x == [] || !IsWordChar(x[0]))
    requires |OpenTag(tag) + x + CloseTag(tag)| <= |t|
    requires t[..|OpenTag(tag) + x + CloseTag(tag)|] == OpenTag(tag) + x + CloseTag(tag)
    ensures ElementMatch(tag, t) == Some(|OpenTag(tag) + x + CloseTag(tag)|)
  {
    var open, close := OpenTag(tag), CloseTag(tag);
    var j := |open| + |x|;
    var block := open + x + close;
    assert StartsWithCiAt(t, 0, open) by {
      forall k | 0 <= k < |open|
        ensures Fold(t[0 + k]) == Fold(open[k])
      {
        assert t[k] == block[k] == open[k];
      }
    }
    assert WordBoundaryAt(t, |open|) by {
      assert t[|open| - 1] == block[|open| - 1] == tag[|tag| - 1];
      assert t[|open|] == block[|open|] == if x == [] then '<' else x[0];
    }
    assert FindCi(t, |open|, close) == Some(j) by {
      forall k | 0 <= k < |close|
        ensures Fold(t[j + k]) == Fold(close[k])
      {
        assert t[j + k] == block[j + k] == close[k];
      }
      forall k | |open| <= k < j
        ensures !StartsWithCiAt(t, k, close)
      {
        assert t[k + 0] == block[k] == x[k - |open|];
        assert Fold(t[k + 0]) != Fold(close[0]);
      }
      FindCiAt(t, |open|, close, j);
    }
  }

  /** A body the block expression accepts: no `<`, and no word character
      right after the opening tag. */
  predicate PlainBody(x: string) {
    NoOpen(x) && (x == [] || !IsWordChar(x[0]))
  }

  /** `<`, the first part of a word tag and then `<`: no block of that tag
      starts anywhere in the part before the second `<`. */
  lemma SplitOpenQuiet(tag: string, a: string, s: string)
    requires WordTag(tag) && |a| < |tag| && tag[..|a|] == a
    requires |a| + 2 <= |s| && s[..|a| + 2] == "<" + a + "<"
    ensures NoMatchIn(MatcherOf(Element(tag)), s, 0, |a| + 1)
  {
    var open := OpenTag(tag);
    assert s[0 + (|a| + 1)] == (s[..|a| + 2])[|a| + 1] == '<';
    assert open[|a| + 1] == tag[|a|];
    assert Fold(s[0 + (|a| + 1)]) != Fold(open[|a| + 1]);
    if MatchAt(Element(tag), s[0..]).Some? {
      MatchLeads(Element(tag), s, 0);
    }
    forall k | 1 <= k < |a| + 1
      ensures s[k] != '<'
    {
      assert s[k] == (s[..|a| + 2])[k] == a[k - 1] == tag[k - 1];
    }
    NoOpenNoElement(tag, s, 1, |a| + 1);
  }

  /** Text without `<` followed by the closing tag: no block starts in it. */
  lemma CloseQuiet(tag: string, s: string, e: nat, c: nat)
    requires WordTag(tag)
    requires e <= c && c + |CloseTag(tag)| == |s| && s[c..] == CloseTag(tag)
    requires forall k :: e <= k < c ==> s[k] != '<'
    ensures NoMatchIn(MatcherOf(Element(tag)), s, e, |s|)
  {
    var open, close := OpenTag(tag), CloseTag(tag);
    NoOpenNoElement(tag, s, e, c);
    if MatchAt(Element(tag), s[c..]).Some? {
      MatchLeads(Element(tag), s, c);
    }
    forall k | c + 1 <= k < |s|
      ensures s[k] != '<'
    {
      assert s[k] == close[k - c];
    }
    NoOpenNoElement(tag, s, c + 1, |s|);
  }

  /** A block standing alone is removed entirely. */
  lemma BlockWhole(tag: string, x: string, t: string)
    requires WordTag(tag) && PlainBody(x) && t == OpenTag(tag) + x + CloseTag(tag)
    ensures MatchAt(Element(tag), t) == Some(|t|)
  {
    assert IsWordChar(tag[|tag| - 1]);
    BlockMatch(tag, x, []);
    assert t + [] == t;
  }

  lemma BlockRemoved(tag: string, x: string)
    requires WordTag(tag) && PlainBody(x)
    ensures Apply(Rule(Element(tag), ""), OpenTag(tag) + x + CloseTag(tag)) == ""
  {
    var t := OpenTag(tag) + x + CloseTag(tag);
    BlockWhole(tag, x, t);
    ReplaceWhole(MatcherOf(Element(tag)), "", t);
  }

  /** A block hidden inside an opening tag split into `a` and `b`. */
  function SplitInput(a: string, b: string, x: string, y: string): string {
    var tag := a + b;
    "<" + a + OpenTag(tag) + x + CloseTag(tag) + b + y + CloseTag(tag)
  }

  /** Where the pieces of `SplitInput` lie. */
  lemma SplitPieces(a: string, b: string, x: string, y: string)
    ensures var tag, s := a + b, SplitInput(a, b, x, y);
      var e := |a| + 1 + |OpenTag(tag) + x + CloseTag(tag)|;
      && e + |b| + |y| + |CloseTag(tag)| == |s|
      && s[..|a| + 2] == "<" + a + "<"
      && s[|a| + 1..] == OpenTag(tag) + x + CloseTag(tag) + (b + y + CloseTag(tag))
      && s[e..] == b + y + CloseTag(tag)
      && s[..|a| + 1] + s[e..] == OpenTag(tag) + y + CloseTag(tag)
  {
    var tag := a + b;
    var open, close := OpenTag(tag), CloseTag(tag);
    var p, block, q := "<" + a, open + x + close, b + y + close;
    var s := SplitInput(a, b, x, y);
    assert s == p + block + q;
    assert s[..|p|] == p;
    assert p + q == open + y + close;
  }

  /** Between the inner block and the closing tag there is no `<`. */
  lemma SplitGap(a: string, b: string, y: string, s: string, e: nat)
    requires WordTag(a + b) && NoOpen(y)
    requires e <= |s| && s[e..] == b + y + CloseTag(a + b)
    ensures forall k :: e <= k < e + |b| + |y| ==> s[k] != '<'
    ensures s[e + |b| + |y|..] == CloseTag(a + b)
  {
    var tag, q := a + b, b + y + CloseTag(a + b);
    forall k | e <= k < e + |b| + |y|
      ensures s[k] != '<'
    {
      assert s[k] == q[k - e];
      if k < e + |b| {
        assert q[k - e] == b[k - e] == tag[|a| + k - e];
      } else {
        assert q[k - e] == y[k - e - |b|];
      }
    }
    assert q[|b| + |y|..] == CloseTag(tag);
  }

  lemma ElementMatcher(tag: string, t: string)
    ensures MatcherOf(Element(tag))(t) == ElementMatch(tag, t)
  {
  }

  /** The block that starts right after the `<` and `a` of the split tag. */
  lemma SplitBlockMatches(tag: string, x: string, rest: string, s: string, lo: nat)
    requires WordTag(tag) && PlainBody(x)
    requires lo <= |s| && s[lo..] == OpenTag(tag) + x + CloseTag(tag) + rest
    ensures ElementMatch(tag, s[lo..]) == Some(|OpenTag(tag) + x + CloseTag(tag)|)
  {
    var block := OpenTag(tag) + x + CloseTag(tag);
    assert s[lo..][..|block|] == block;
    assert IsWordChar(tag[|tag| - 1]);
    BlockLayout(tag, x, s[lo..]);
  }

  /** After the block, up to the end, no block starts. */
  lemma SplitTailQuiet(a: string, b: string, y: string, s: string, e: nat)
    requires WordTag(a + b) && NoOpen(y)
    requires e <= |s| && s[e..] == b + y + CloseTag(a + b)
    ensures NoMatchIn(MatcherOf(Element(a + b)), s, e, |s|)
  {
    SplitGap(a, b, y, s, e);
    CloseQuiet(a + b, s, e, e + |b| + |y|);
  }

  /** The first pass over any text laid out as `SplitInput` is. */
  lemma SplitLayoutPass(a: string, b: string, x: string, y: string, s: string, e: nat)
    requires WordTag(a + b) && |b| > 0
    requires PlainBody(x) && NoOpen(y)
    requires e == |a| + 1 + |OpenTag(a + b) + x + CloseTag(a + b)| <= |s|
    requires s[..|a| + 2] == "<" + a + "<"
    requires s[|a| + 1..] == OpenTag(a + b) + x + CloseTag(a + b) + (b + y + CloseTag(a + b))
    requires s[e..] == b + y + CloseTag(a + b)
    ensures Apply(Rule(Element(a + b), ""), s) == s[..|a| + 1] + s[e..]
  {
    var tag, lo := a + b, |a| + 1;
    assert tag[..|a|] == a;
    SplitOpenQuiet(tag, a, s);
    SplitBlockMatches(tag, x, b + y + CloseTag(tag), s, lo);
    ElementMatcher(tag, s[lo..]);
    SplitTailQuiet(a, b, y, s, e);
    DeleteOneMatch(MatcherOf(Element(tag)), s, lo, e);
  }

  /** The first pass over a block hidden inside a split opening tag. */
  lemma SplitTagPass(a: string, b: string, x: string, y: string)
    requires WordTag(a + b) && |b| > 0
    requires PlainBody(x) && NoOpen(y)
    ensures var tag := a + b;
      Apply(Rule(Element(tag), ""), SplitInput(a, b, x, y)) == OpenTag(tag) + y + CloseTag(tag)
  {
    var e := |a| + 1 + |OpenTag(a + b) + x + CloseTag(a + b)|;
    SplitPieces(a, b, x, y);
    SplitLayoutPass(a, b, x, y, SplitInput(a, b, x, y), e);
  }

  /** The scan resumes after each removed block and never re-reads its own
      output, so one pass is not idempotent: a block hidden inside a split
      opening tag is removed, the two halves join into a new opening tag,
      and only a second pass removes the block that forms. With tag
      `script`, halves `scr` and `ipt`, bodies `>x` and `>alert(1)`, the
      input is `<scr<script>x</script>ipt>alert(1)</script>`. */
  lemma ElementPassNotIdempotent(a: string, b: string, x: string, y: string)
    requires WordTag(a + b) && |b| > 0
    requires PlainBody(x) && PlainBody(y)
    ensures var tag := a + b;
      var once := Apply(Rule(Element(tag), ""), SplitInput(a, b, x, y));
      once == OpenTag(tag) + y + CloseTag(tag)
      && Apply(Rule(Element(tag), ""), once) == ""
  {
    SplitTagPass(a, b, x, y);
    BlockRemoved(a + b, y);
  }

  /** `script` is a tag name of word characters. */
  lemma ScriptIsWordTag()
    ensures WordTag("script")
  {
    forall k | 0 <= k < 6
      ensures IsWordChar("script"[k])
    {
      assert k == 0 || k == 1 || k == 2 || k == 3 || k == 4 || k == 5;
    }
  }

  /** A script block standing alone, such as `<script>alert(1)</script>`,
      sanitizes to the empty string: line 5 removes it and every later step
      finds nothing in the empty string. */
  lemma LoneScriptSanitized(x: string)
    requires PlainBody(x)
    ensures SanitizeHtml(OpenTag("script") + x + CloseTag("script")) == ""
  {
    var s := OpenTag("script") + x + CloseTag("script");
    ScriptIsWordTag();
    BlockRemoved("script", x);
    assert Rules[0] == Rule(Element("script"), "");
    assert Pipeline(Rules, s) == Pipeline(Rules[1..], "");
  }

  // ---------------------------------------------------------------------
  // Handler attributes, line 8

  /** `on`, a non-empty word run, `=` and a value without white space or
      `>` are one unquoted-handler match. */
  lemma UnquotedWhole(w: string, v: string, t: string)
    requires |w| > 0 && forall k :: 0 <= k < |w| ==> IsWordChar(w[k])
    requires forall k :: 0 <= k < |v| ==> In(NotSpaceOrGt, v[k])
    requires t == "on" + w + "=" + v
    ensures MatchAt(UnquotedHandler, t) == Some(|t|)
  {
    assert t == "on" + w + "=" + v + [];
    assert StartsWithCiAt("on", 0, "on");
    UnquotedStops("on", w, v, [], t);
  }

  /** The unquoted-handler match read off the layout of `t`: `on` in any
      case, word characters up to the `=` at `e`, and value characters up to
      `end`, where the value stops. */
  lemma UnquotedLayout(t: string, e: nat, end: nat)
    requires StartsWithCiAt(t, 0, "on") && 2 < e < end <= |t|
    requires forall k :: 2 <= k < e ==> In(Word, t[k])
    requires t[e] == '='
    requires forall k :: e + 1 <= k < end ==> In(NotSpaceOrGt, t[k])
    requires end == |t| || !In(NotSpaceOrGt, t[end])
    ensures MatchAt(UnquotedHandler, t) == Some(end)
  {
    EqualsAt(t, e);
    ValueRunsTo(t, e, end);
    assert MatchAt(UnquotedHandler, t) == UnquotedMatch(t) == HandlerValue(t);
  }

  lemma EqualsAt(t: string, e: nat)
    requires 2 < e < |t| && t[e] == '='
    requires forall k :: 2 <= k < e ==> In(Word, t[k])
    ensures HandlerEquals(t) == Some(e)
  {
    RunStopsAt(t, 2, Word, e);
  }

  lemma ValueRunsTo(t: string, e: nat, end: nat)
    requires 2 < e < end <= |t| && HandlerEquals(t) == Some(e)
    requires forall k :: e + 1 <= k < end ==> In(NotSpaceOrGt, t[k])
    requires end == |t| || !In(NotSpaceOrGt, t[end])
    ensures HandlerValue(t) == Some(end)
  {
    if end == |t| {
      RunCovers(t, e + 1, NotSpaceOrGt, end);
    } else {
      RunStopsAt(t, e + 1, NotSpaceOrGt, end);
    }
  }

  /** `on` in any case, a non-empty word run, `=` and a value without white
      space or `>`, followed by text that does not continue the value, are
      one unquoted-handler match that ends where the value ends. */
  lemma UnquotedStops(on: string, w: string, v: string, rest: string, t: string)
    requires |on| == 2 && StartsWithCiAt(on, 0, "on")
    requires |w| > 0 && forall k :: 0 <= k < |w| ==> IsWordChar(w[k])
    requires forall k :: 0 <= k < |v| ==> In(NotSpaceOrGt, v[k])
    requires rest == [] || !In(NotSpaceOrGt, rest[0])
    requires t == on + w + "=" + v + rest
    ensures MatchAt(UnquotedHandler, t) == Some(3 + |w| + |v|)
  {
    var e := 2 + |w|;
    var end := e + 1 + |v|;
    assert t[0] == on[0] && t[1] == on[1];
    assert forall k :: 2 <= k < e ==> t[k] == w[k - 2];
    assert t[e] == '=';
    assert forall k :: e + 1 <= k < end ==> t[k] == v[k - e - 1];
    assert end < |t| ==> t[end] == rest[0];
    UnquotedLayout(t, e, end);
  }

  /** No unquoted-handler match starts where there is no `o` in any case. */
  lemma HandlerQuiet(s: string, lo: nat, hi: nat)
    requires lo <= hi <= |s|
    requires forall k :: lo <= k < hi ==> Fold(s[k]) != 'o'
    ensures NoMatchIn(MatcherOf(UnquotedHandler), s, lo, hi)
  {
    forall k | lo <= k < hi
      ensures MatchAt(UnquotedHandler, s[k..]).None?
    {
      if MatchAt(UnquotedHandler, s[k..]).Some? {
        MatchStartsWithLead(UnquotedHandler, s, k);
      }
    }
  }

  /** One unquoted-handler match with no `o` on either side of it: the pass
      deletes that match and nothing else. */
  lemma HandlerPass(s: string, lo: nat, hi: nat)
    requires lo <= hi <= |s| && MatchAt(UnquotedHandler, s[lo..]) == Some(hi - lo)
    requires forall k :: 0 <= k < lo ==> Fold(s[k]) != 'o'
    requires forall k :: hi <= k < |s| ==> Fold(s[k]) != 'o'
    ensures Apply(Rule(UnquotedHandler, ""), s) == s[..lo] + s[hi..]
  {
    HandlerQuiet(s, 0, lo);
    HandlerQuiet(s, hi, |s|);
    DeleteOneMatch(MatcherOf(UnquotedHandler), s, lo, hi);
  }

  /** The unquoted-handler pass removes a handler attribute whose value ends
      at white space, `>` or the end of the text, and keeps the text around
      it. With `pre` = `<img src=x `, `on` = `on`, `w` = `error`, `v` =
      `alert(1)` and `rest` = `>`, `<img src=x onerror=alert(1)>` becomes
      `<img src=x >`. */
  lemma HandlerRemoved(pre: string, on: string, w: string, v: string, rest: string)
    requires forall k :: 0 <= k < |pre| ==> Fold(pre[k]) != 'o'
    requires forall k :: 0 <= k < |rest| ==> Fold(rest[k]) != 'o'
    requires |on| == 2 && StartsWithCiAt(on, 0, "on")
    requires |w| > 0 && forall k :: 0 <= k < |w| ==> IsWordChar(w[k])
    requires forall k :: 0 <= k < |v| ==> In(NotSpaceOrGt, v[k])
    requires rest == [] || !In(NotSpaceOrGt, rest[0])
    ensures Apply(Rule(UnquotedHandler, ""), pre + on + w + "=" + v + rest) == pre + rest
  {
    var t := on + w + "=" + v + rest;
    var s := pre + t;
    var lo, hi := |pre|, |pre| + 3 + |w| + |v|;
    assert s == pre + on + w + "=" + v + rest;
    assert s[lo..] == t;
    UnquotedStops(on, w, v, rest, t);
    assert forall k :: hi <= k < |s| ==> s[k] == rest[k - hi];
    HandlerPass(s, lo, hi);
    assert s[..lo] == pre && s[hi..] == rest;
  }

  /** Text that cannot start a handler, followed by one handler match
      that runs to the end: the pass keeps the text and drops the rest. */
  lemma HandlerAtEnd(pre: string, t: string, s: string)
    requires forall k :: 0 <= k < |pre| ==> Fold(pre[k]) != 'o'
    requires MatchAt(UnquotedHandler, t) == Some(|t|)
    requires s == pre + t
    ensures Apply(Rule(UnquotedHandler, ""), s) == pre
  {
    var lo := |pre|;
    var m := MatcherOf(UnquotedHandler);
    assert NoMatchIn(m, s, 0, lo) by {
      forall k | 0 <= k < lo
        ensures MatchAt(UnquotedHandler, s[k..]).None?
      {
        assert s[k] == pre[k];
        if MatchAt(UnquotedHandler, s[k..]).Some? {
          MatchStartsWithLead(UnquotedHandler, s, k);
        }
      }
    }
    assert s[lo..] == t;
    ReplaceOneMatch(m, "", s, lo, |s|);
    assert s[..lo] + "" + s[|s|..] == pre;
  }

  /** The handler expression has no word boundary: a handler name glued to
      the end of a longer word is removed with its value, and the start of
      the word stays. With `pre` = `c`, `w` = `tent` and `v` = `foo`, the
      attribute `content=foo` becomes `c`. */
  lemma HandlerInsideWord(pre: string, w: string, v: string)
    requires forall k :: 0 <= k < |pre| ==> Fold(pre[k]) != 'o'
    requires |w| > 0 && forall k :: 0 <= k < |w| ==> IsWordChar(w[k])
    requires forall k :: 0 <= k < |v| ==> In(NotSpaceOrGt, v[k])
    ensures Apply(Rule(UnquotedHandler, ""), pre + ("on" + w + "=" + v)) == pre
  {
    var t := "on" + w + "=" + v;
    UnquotedWhole(w, v, t);
    HandlerAtEnd(pre, t, pre + t);
  }

  // ---------------------------------------------------------------------
  // `javascript:`, line 9

  /** The scheme expression takes everything up to the first white space or
      `>`, quotes included: in `href="javascript:alert(1)">` it removes
      `javascript:alert(1)"` and leaves `href=">`. */
  lemma SchemeRunsToGt(v: string, rest: string)
    requires forall k :: 0 <= k < |v| ==> In(NotSpaceOrGt, v[k])
    requires rest == [] || !In(NotSpaceOrGt, rest[0])
    ensures JavascriptMatch("javascript:" + v + rest) == Some(11 + |v|)
  {
    var t := "javascript:" + v + rest;
    assert StartsWithAt(t, 0, "javascript:") by {
      forall k | 0 <= k < 11
        ensures t[0 + k] == "javascript:"[k]
      {
      }
    }
    forall k | 11 <= k < 11 + |v|
      ensures In(NotSpaceOrGt, t[k])
    {
      assert t[k] == v[k - 11];
    }
    if rest == [] {
      RunCovers(t, 11, NotSpaceOrGt, |t|);
    } else {
      assert t[11 + |v|] == rest[0];
      RunStopsAt(t, 11, NotSpaceOrGt, 11 + |v|);
    }
  }

  /** A scheme match starts with a lower-case `j`. */
  lemma SchemeLead(s: string, k: nat)
    requires k < |s|
    ensures MatchAt(JavascriptScheme, s[k..]).Some? ==> s[k] == 'j'
  {
    if MatchAt(JavascriptScheme, s[k..]).Some? {
      MatchLeads(JavascriptScheme, s, k);
      assert s[k + 0] == "javascript:"[0];
    }
  }

  /** No scheme match starts where there is no lower-case `j`. */
  lemma SchemeQuiet(s: string, lo: nat, hi: nat)
    requires lo <= hi <= |s|
    requires forall k :: lo <= k < hi ==> s[k] != 'j'
    ensures NoMatchIn(MatcherOf(JavascriptScheme), s, lo, hi)
  {
    forall k | lo <= k < hi
      ensures MatchAt(JavascriptScheme, s[k..]).None?
    {
      SchemeLead(s, k);
    }
  }

  /** One scheme match with no lower-case `j` on either side of it: the
      pass deletes that match and nothing else. */
  lemma SchemePass(s: string, lo: nat, hi: nat)
    requires lo <= hi <= |s| && MatchAt(JavascriptScheme, s[lo..]) == Some(hi - lo)
    requires forall k :: 0 <= k < lo ==> s[k] != 'j'
    requires forall k :: hi <= k < |s| ==> s[k] != 'j'
    ensures Apply(Rule(JavascriptScheme, ""), s) == s[..lo] + s[hi..]
  {
    SchemeQuiet(s, 0, lo);
    SchemeQuiet(s, hi, |s|);
    ReplaceOneMatch(MatcherOf(JavascriptScheme), "", s, lo, hi);
  }

  /** The scheme pass removes `javascript:` together with the value that
      follows it up to the first white space or `>`, and keeps the text
      around it. With `pre` = `href="`, `v` = `alert(1)"` and `rest` = `>`,
      `href="javascript:alert(1)">` becomes `href=">`. */
  lemma SchemeRemoved(pre: string, v: string, rest: string)
    requires forall k :: 0 <= k < |pre| ==> pre[k] != 'j'
    requires forall k :: 0 <= k < |rest| ==> rest[k] != 'j'
    requires forall k :: 0 <= k < |v| ==> In(NotSpaceOrGt, v[k])
    requires rest == [] || !In(NotSpaceOrGt, rest[0])
    ensures Apply(Rule(JavascriptScheme, ""), pre + "javascript:" + v + rest) == pre + rest
  {
    var t := "javascript:" + v + rest;
    var s := pre + t;
    var lo, hi := |pre|, |pre| + 11 + |v|;
    assert s == pre + "javascript:" + v + rest;
    assert s[lo..] == t;
    SchemeRunsToGt(v, rest);
    assert forall k :: hi <= k < |s| ==> s[k] == rest[k - hi];
    SchemePass(s, lo, hi);
    assert s[..lo] == pre && s[hi..] == rest;
  }
}
