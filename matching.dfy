/** `MatchAt` answers the longest prefix of the remaining input that is in
    the expression's language, or no match when no prefix is; that prefix
    is JavaScript's match by the argument in the README. One pair of lemmas per
    expression shape: every prefix in the language forces the matcher's
    answer, and the matcher's answer is in the language. */
module Matching {
  import opened Text
  import opened Patterns

  /** What the matcher promises at the start of `t`. */
  ghost predicate MatchIsLongest(p: Pattern, t: string) {
    match MatchAt(p, t)
    case Some(n) => IsLongestMatch(p, t, n)
    case None => NoPrefixInLanguage(p, t)
  }

  // ---------------------------------------------------------------------
  // `<tag ... </tag>`

  lemma ElementPrefixForcesMatch(tag: string, t: string, m: nat)
    requires m <= |t| && ElementLang(tag, t[..m])
    ensures ElementMatch(tag, t) == Some(m)
  {
    var w, open, close := t[..m], OpenTag(tag), CloseTag(tag);
    var j := m - |close|;
    StartsWithCiInPrefix(t, m, 0, open);
    StartsWithCiInPrefix(t, m, j, close);
    assert WordBoundaryAt(t, |open|) by {
      assert w[|open|] == t[|open|] && w[|open| - 1] == t[|open| - 1];
    }
    forall q | |open| <= q < j
      ensures !StartsWithCiAt(t, q, close)
    {
      StartsWithCiInPrefix(t, m, q, close);
      assert close[0] == '<';
      FoldNonLetter(w[q], '<');
    }
    assert FindCi(t, |open|, close) == Some(j);
  }

  lemma ElementMatchInLanguage(tag: string, t: string)
    requires ElementMatch(tag, t).Some?
    ensures ElementLang(tag, t[..ElementMatch(tag, t).value])
  {
    var n, open, close := ElementMatch(tag, t).value, OpenTag(tag), CloseTag(tag);
    var w, j := t[..n], n - |close|;
    assert FindCi(t, |open|, close) == Some(j);
    StartsWithCiInPrefix(t, n, 0, open);
    StartsWithCiInPrefix(t, n, j, close);
    assert w[|open|] == t[|open|] && w[|open| - 1] == t[|open| - 1];
    forall q | |open| <= q < j && w[q] == '<'
      ensures !StartsWithCiAt(w, q, close)
    {
      StartsWithCiInPrefix(t, n, q, close);
    }
  }

  /** Line 5 and lines 10-12: the opening tag, not followed by a word
      character, through the first closing tag after it. */
  lemma ElementMatchCorrect(tag: string, t: string)
    ensures MatchIsLongest(Element(tag), t)
  {
    forall m | 0 <= m <= |t| && InLanguage(Element(tag), t[..m])
      ensures ElementMatch(tag, t) == Some(m)
    {
      ElementPrefixForcesMatch(tag, t, m);
    }
    if ElementMatch(tag, t).Some? {
      ElementMatchInLanguage(tag, t);
    }
  }

  // ---------------------------------------------------------------------
  // `on\w+="..."` and `on\w+='...'`

  lemma QuotedPrefixForcesMatch(quote: char, t: string, m: nat, e: nat)
    requires m <= |t| && QuotedShape(quote, t[..m], e)
    ensures QuotedMatch(quote, t) == Some(m)
  {
    var w := t[..m];
    StartsWithInPrefix(t, m, 0, "on");
    RunStopsAt(t, 2, Word, e);
    assert HandlerEquals(t) == Some(e);
    assert t[e + 1] == quote;
    assert FindChar(t, e + 2, quote) == Some(m - 1);
  }

  lemma QuotedMatchInLanguage(quote: char, t: string)
    requires QuotedMatch(quote, t).Some?
    ensures exists e :: QuotedShape(quote, t[..QuotedMatch(quote, t).value], e)
  {
    var n := QuotedMatch(quote, t).value;
    var e := HandlerEquals(t).value;
    assert FindChar(t, e + 2, quote) == Some(n - 1);
    StartsWithInPrefix(t, n, 0, "on");
    assert QuotedShape(quote, t[..n], e);
  }

  /** Lines 6 and 7: lower-case `on`, a word run, `=`, and a value in the
      given quotes up to the first closing quote, which must exist. */
  lemma QuotedMatchCorrect(quote: char, t: string)
    ensures MatchIsLongest(QuotedHandler(quote), t)
  {
    forall m | 0 <= m <= |t| && InLanguage(QuotedHandler(quote), t[..m])
      ensures QuotedMatch(quote, t) == Some(m)
    {
      var e :| QuotedShape(quote, t[..m], e);
      QuotedPrefixForcesMatch(quote, t, m, e);
    }
    if QuotedMatch(quote, t).Some? {
      QuotedMatchInLanguage(quote, t);
    }
  }

  // ---------------------------------------------------------------------
  // `on\w+=[^>\s]*`

  lemma UnquotedPrefixBounded(t: string, m: nat, e: nat)
    requires m <= |t| && UnquotedShape(t[..m], e)
    ensures UnquotedMatch(t).Some? && m <= UnquotedMatch(t).value
  {
    var w := t[..m];
    StartsWithCiInPrefix(t, m, 0, "on");
    RunStopsAt(t, 2, Word, e);
    assert HandlerEquals(t) == Some(e);
    RunCovers(t, e + 1, NotSpaceOrGt, m);
  }

  lemma UnquotedMatchInLanguage(t: string)
    requires UnquotedMatch(t).Some?
    ensures exists e :: UnquotedShape(t[..UnquotedMatch(t).value], e)
  {
    var n := UnquotedMatch(t).value;
    var e := HandlerEquals(t).value;
    StartsWithCiInPrefix(t, n, 0, "on");
    assert UnquotedShape(t[..n], e);
  }

  /** Line 8: `on` in any case, a word run, `=`, then everything up to the
      first white space or `>`. */
  lemma UnquotedMatchCorrect(t: string)
    ensures MatchIsLongest(UnquotedHandler, t)
  {
    forall m | 0 <= m <= |t| && InLanguage(UnquotedHandler, t[..m])
      ensures UnquotedMatch(t).Some? && m <= UnquotedMatch(t).value
    {
      var e :| UnquotedShape(t[..m], e);
      UnquotedPrefixBounded(t, m, e);
    }
    if UnquotedMatch(t).Some? {
      UnquotedMatchInLanguage(t);
    }
  }

  // ---------------------------------------------------------------------
  // `javascript:[^\s>]*`

  /** Line 9: lower-case `javascript:`, then everything up to the first white
      space or `>`. */
  lemma JavascriptMatchCorrect(t: string)
    ensures MatchIsLongest(JavascriptScheme, t)
  {
    forall m | 0 <= m <= |t| && InLanguage(JavascriptScheme, t[..m])
      ensures JavascriptMatch(t).Some? && m <= JavascriptMatch(t).value
    {
      StartsWithInPrefix(t, m, 0, "javascript:");
      RunCovers(t, 11, NotSpaceOrGt, m);
    }
    if JavascriptMatch(t).Some? {
      var n := JavascriptMatch(t).value;
      StartsWithInPrefix(t, n, 0, "javascript:");
    }
  }

  // ---------------------------------------------------------------------
  // `position\s*:\s*keyword`

  /** White space, `:` and white space from `i` on, read off where the runs
      stop. */
  lemma ColonValueAt(t: string, i: nat, a: nat, b: nat)
    requires i <= a < |t| && t[a] == ':' && i + Run(t, i, Space) == a
    requires a + 1 + Run(t, a + 1, Space) == b
    ensures ColonValue(t, i) == Some(b)
  {
  }

  lemma PositionPrefixForcesMatch(keyword: string, t: string, m: nat, a: nat, b: nat)
    requires |keyword| > 0 && 'a' <= keyword[0] <= 'z'
    requires m <= |t| && PositionShape(keyword, t[..m], a, b)
    ensures PositionMatch(keyword, t) == Some(m)
  {
    var w := t[..m];
    assert StartsWithCiAt(t, 0, "position") && StartsWithCiAt(t, b, keyword) by {
      StartsWithCiInPrefix(t, m, 0, "position");
      StartsWithCiInPrefix(t, m, b, keyword);
    }
    assert t[a] == ':' by {
      assert t[a] == w[a];
    }
    assert 8 + Run(t, 8, Space) == a by {
      assert forall k :: 8 <= k < a ==> w[k] == t[k];
      RunStopsAt(t, 8, Space, a);
    }
    assert a + 1 + Run(t, a + 1, Space) == b by {
      assert forall k :: a + 1 <= k < b ==> w[k] == t[k];
      assert Fold(t[b + 0]) == Fold(keyword[0]);
      RunStopsAt(t, a + 1, Space, b);
    }
    ColonValueAt(t, 8, a, b);
    assert ValueStart("position", t) == Some(b);
  }

  lemma PositionMatchInLanguage(keyword: string, t: string)
    requires PositionMatch(keyword, t).Some?
    ensures exists a, b :: PositionShape(keyword, t[..PositionMatch(keyword, t).value], a, b)
  {
    var n := PositionMatch(keyword, t).value;
    var a := 8 + Run(t, 8, Space);
    var b := a + 1 + Run(t, a + 1, Space);
    StartsWithCiInPrefix(t, n, 0, "position");
    StartsWithCiInPrefix(t, n, b, keyword);
    assert PositionShape(keyword, t[..n], a, b);
  }

  /** Lines 13 and 14: `position`, optional white space, `:`, optional white
      space and the keyword, all in any case. */
  lemma PositionMatchCorrect(keyword: string, t: string)
    requires |keyword| > 0 && 'a' <= keyword[0] <= 'z'
    ensures MatchIsLongest(Position(keyword), t)
  {
    forall m | 0 <= m <= |t| && InLanguage(Position(keyword), t[..m])
      ensures PositionMatch(keyword, t) == Some(m)
    {
      var a, b :| PositionShape(keyword, t[..m], a, b);
      PositionPrefixForcesMatch(keyword, t, m, a, b);
    }
    if PositionMatch(keyword, t).Some? {
      PositionMatchInLanguage(keyword, t);
    }
  }

  // ---------------------------------------------------------------------
  // `property\s*:\s*\d+`

  /** Where the runs of white space stop and how far the digits reach fix
      the match. */
  lemma OffsetMatchReaches(property: string, t: string, a: nat, b: nat, m: nat)
    requires a < b <= m <= |t| && StartsWithCiAt(t, 0, property) && t[a] == ':'
    requires |property| + Run(t, |property|, Space) == a
    requires a + 1 + Run(t, a + 1, Space) == b
    requires b < m <= b + Run(t, b, Digit)
    ensures OffsetMatch(property, t).Some? && m <= OffsetMatch(property, t).value
  {
    ColonValueAt(t, |property|, a, b);
    assert ValueStart(property, t) == Some(b);
  }

  lemma OffsetPrefixBounded(property: string, t: string, m: nat, a: nat, b: nat)
    requires m <= |t| && OffsetShape(property, t[..m], a, b)
    ensures OffsetMatch(property, t).Some? && m <= OffsetMatch(property, t).value
  {
    var w := t[..m];
    assert StartsWithCiAt(t, 0, property) by {
      StartsWithCiInPrefix(t, m, 0, property);
    }
    assert t[a] == ':' by {
      assert t[a] == w[a];
    }
    assert |property| + Run(t, |property|, Space) == a by {
      assert forall k :: |property| <= k < a ==> w[k] == t[k];
      RunStopsAt(t, |property|, Space, a);
    }
    assert a + 1 + Run(t, a + 1, Space) == b by {
      assert forall k :: a + 1 <= k <= b ==> w[k] == t[k];
      assert IsDigit(w[b]);
      RunStopsAt(t, a + 1, Space, b);
    }
    assert m <= b + Run(t, b, Digit) by {
      assert forall k :: b <= k < m ==> w[k] == t[k];
      RunCovers(t, b, Digit, m);
    }
    OffsetMatchReaches(property, t, a, b, m);
  }

  lemma OffsetMatchInLanguage(property: string, t: string)
    requires OffsetMatch(property, t).Some?
    ensures exists a, b :: OffsetShape(property, t[..OffsetMatch(property, t).value], a, b)
  {
    var n := OffsetMatch(property, t).value;
    var a := |property| + Run(t, |property|, Space);
    var b := a + 1 + Run(t, a + 1, Space);
    StartsWithCiInPrefix(t, n, 0, property);
    assert OffsetShape(property, t[..n], a, b);
  }

  /** Lines 15 and 16: the property, optional white space, `:`, optional
      white space and the longest run of digits, in any case. */
  lemma OffsetMatchCorrect(property: string, t: string)
    ensures MatchIsLongest(Offset(property), t)
  {
    forall m | 0 <= m <= |t| && InLanguage(Offset(property), t[..m])
      ensures OffsetMatch(property, t).Some? && m <= OffsetMatch(property, t).value
    {
      var a, b :| OffsetShape(property, t[..m], a, b);
      OffsetPrefixBounded(property, t, m, a, b);
    }
    if OffsetMatch(property, t).Some? {
      OffsetMatchInLanguage(property, t);
    }
  }

  // ---------------------------------------------------------------------

  /** Every expression of the sanitizer is matched by the longest prefix in
      its language, which is JavaScript's match by the argument in the
      README. */
  lemma MatchAtCorrect(p: Pattern, t: string)
    requires Supported(p)
    ensures MatchIsLongest(p, t)
  {
    match p
    case Element(tag) => ElementMatchCorrect(tag, t);
    case QuotedHandler(quote) => QuotedMatchCorrect(quote, t);
    case UnquotedHandler => UnquotedMatchCorrect(t);
    case JavascriptScheme => JavascriptMatchCorrect(t);
    case Position(keyword) => PositionMatchCorrect(keyword, t);
    case Offset(property) => OffsetMatchCorrect(property, t);
  }
}
