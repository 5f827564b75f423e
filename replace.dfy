/** `String.prototype.replace` with a global regular expression and a plain
    replacement string (no `$` patterns), as every step of
    src/components/sanitise.ts:4-16 uses it.

    The scan starts at index 0. At each index it tries the expression; on a
    match it emits the replacement and resumes after the matched text of the
    INPUT, otherwise it copies one character and moves on. Its own output is
    never searched again. Every match is non-empty, so the scan never has to
    step over an empty match. */
module Replace {
  import opened Text

  /** An expression tried at the start of the remaining input: the length of
      the match there, if any. Every match is non-empty and lies inside the
      input. */
  type Matcher = m: string -> Option<nat> | forall t :: m(t).Some? ==> 0 < m(t).value <= |t|
    witness (t: string) => None

  /** The output of the scan from index `i` on. */
  function ReplaceFrom(matcher: Matcher, repl: string, s: string, i: nat): (r: string)
    requires i <= |s|
    ensures repl == [] ==> |r| <= |s| - i
    decreases |s| - i
  {
    if i == |s| then []
    else
      match matcher(s[i..])
      case Some(n) => repl + ReplaceFrom(matcher, repl, s, i + n)
      case None => [s[i]] + ReplaceFrom(matcher, repl, s, i + 1)
  }

  /** `s.replace(/p/g, repl)` */
  function ReplaceAll(matcher: Matcher, repl: string, s: string): (r: string)
    ensures s == [] ==> r == []
    ensures repl == [] ==> |r| <= |s|
  {
    ReplaceFrom(matcher, repl, s, 0)
  }

  // ---------------------------------------------------------------------
  // The two-phase reading: first find all matches, then splice them out

  /** The text `s[start .. start + len]`. */
  datatype Span = Span(start: nat, len: nat)

  /** No match starts at any index in `lo .. hi`. */
  predicate NoMatchIn(matcher: Matcher, s: string, lo: nat, hi: nat)
    requires lo <= hi <= |s|
  {
    forall k :: lo <= k < hi ==> matcher(s[k..]).None?
  }

  /** `spans` are the successive matches a global search finds from index
      `from`: each one starts at the first index, at or after the end of the
      one before, where the expression matches, and is as long as that match; after the
      last one no match starts. */
  predicate LeftmostMatches(matcher: Matcher, s: string, from: nat, spans: seq<Span>)
    requires from <= |s|
    decreases |spans|
  {
    if spans == [] then NoMatchIn(matcher, s, from, |s|)
    else
      var sp := spans[0];
      from <= sp.start < |s| && NoMatchIn(matcher, s, from, sp.start)
      && matcher(s[sp.start..]) == Some(sp.len)
      && LeftmostMatches(matcher, s, sp.start + sp.len, spans[1..])
  }

  /** The spans lie in order, without overlapping, in `from .. size`. */
  predicate Ordered(spans: seq<Span>, from: nat, size: nat)
    decreases |spans|
  {
    from <= size
    && (spans == []
        || (from <= spans[0].start && spans[0].start + spans[0].len <= size
            && Ordered(spans[1..], spans[0].start + spans[0].len, size)))
  }

  /** `s` from `from` on, with every span replaced by `repl`. */
  function Splice(s: string, spans: seq<Span>, from: nat, repl: string): string
    requires Ordered(spans, from, |s|)
    decreases |spans|
  {
    if spans == [] then s[from..]
    else
      s[from..spans[0].start] + repl
      + Splice(s, spans[1..], spans[0].start + spans[0].len, repl)
  }

  function TotalLen(spans: seq<Span>): nat {
    if spans == [] then 0 else spans[0].len + TotalLen(spans[1..])
  }

  /** The spans the scan from `i` matches. */
  function Matches(matcher: Matcher, s: string, i: nat): seq<Span>
    requires i <= |s|
    decreases |s| - i
  {
    if i == |s| then []
    else
      match matcher(s[i..])
      case Some(n) => [Span(i, n)] + Matches(matcher, s, i + n)
      case None => Matches(matcher, s, i + 1)
  }

  // ---------------------------------------------------------------------

  /** Where no match starts, the search may as well start one index
      earlier. */
  lemma LeftmostFromEarlier(matcher: Matcher, s: string, i: nat, spans: seq<Span>)
    requires i < |s| && matcher(s[i..]).None?
    requires LeftmostMatches(matcher, s, i + 1, spans)
    ensures LeftmostMatches(matcher, s, i, spans)
  {
    if spans != [] {
      assert NoMatchIn(matcher, s, i, spans[0].start);
    } else {
      assert NoMatchIn(matcher, s, i, |s|);
    }
  }

  /** A match at `i` followed by the leftmost matches after its end are the
      leftmost matches from `i`. */
  lemma LeftmostFromMatch(matcher: Matcher, s: string, i: nat, n: nat, rest: seq<Span>)
    requires i < |s| && matcher(s[i..]) == Some(n)
    requires LeftmostMatches(matcher, s, i + n, rest)
    ensures LeftmostMatches(matcher, s, i, [Span(i, n)] + rest)
  {
    var spans := [Span(i, n)] + rest;
    assert spans[0] == Span(i, n) && spans[1..] == rest;
  }

  /** When the first span does not start at `from`, no match starts
      there and the search may as well start one index later. */
  lemma LeftmostFromLater(matcher: Matcher, s: string, from: nat, spans: seq<Span>)
    requires from < |s| && LeftmostMatches(matcher, s, from, spans)
    requires spans == [] || spans[0].start != from
    ensures matcher(s[from..]).None?
    ensures LeftmostMatches(matcher, s, from + 1, spans)
  {
    if spans != [] {
      assert NoMatchIn(matcher, s, from + 1, spans[0].start);
    } else {
      assert NoMatchIn(matcher, s, from + 1, |s|);
    }
  }

  lemma {:induction false} MatchesAreLeftmost(matcher: Matcher, s: string, i: nat)
    requires i <= |s|
    ensures LeftmostMatches(matcher, s, i, Matches(matcher, s, i))
    decreases |s| - i
  {
    if i < |s| {
      match matcher(s[i..])
      case Some(n) =>
        var rest := Matches(matcher, s, i + n);
        assert Matches(matcher, s, i) == [Span(i, n)] + rest;
        MatchesAreLeftmost(matcher, s, i + n);
        LeftmostFromMatch(matcher, s, i, n, rest);
      case None =>
        var spans := Matches(matcher, s, i + 1);
        assert Matches(matcher, s, i) == spans;
        MatchesAreLeftmost(matcher, s, i + 1);
        LeftmostFromEarlier(matcher, s, i, spans);
    }
  }

  /** Leftmost matches are ordered, disjoint and non-empty. */
  lemma {:induction false} LeftmostAreOrdered(matcher: Matcher, s: string, from: nat, spans: seq<Span>)
    requires from <= |s| && LeftmostMatches(matcher, s, from, spans)
    ensures Ordered(spans, from, |s|)
    ensures forall k :: 0 <= k < |spans| ==> spans[k].len > 0
    decreases |spans|
  {
    if spans != [] {
      LeftmostAreOrdered(matcher, s, spans[0].start + spans[0].len, spans[1..]);
      assert forall k :: 1 <= k < |spans| ==> spans[k] == spans[1..][k - 1];
    }
  }

  /** Each leftmost span lies in `s` and is exactly what the expression
      matches at its start. */
  lemma {:induction false} LeftmostAreMatches(matcher: Matcher, s: string, from: nat, spans: seq<Span>)
    requires from <= |s| && LeftmostMatches(matcher, s, from, spans)
    ensures forall k :: 0 <= k < |spans| ==>
      spans[k].start + spans[k].len <= |s| && matcher(s[spans[k].start..]) == Some(spans[k].len)
    decreases |spans|
  {
    if spans != [] {
      LeftmostAreMatches(matcher, s, spans[0].start + spans[0].len, spans[1..]);
      assert forall k :: 1 <= k < |spans| ==> spans[k] == spans[1..][k - 1];
    }
  }

  /** Every span list that satisfies the declarative description is the one
      the scan finds. */
  lemma {:induction false} LeftmostUnique(matcher: Matcher, s: string, from: nat, spans: seq<Span>)
    requires from <= |s| && LeftmostMatches(matcher, s, from, spans)
    ensures spans == Matches(matcher, s, from)
    decreases |s| - from
  {
    if from < |s| {
      if spans != [] && spans[0].start == from {
        var n := spans[0].len;
        assert matcher(s[from..]) == Some(n);
        assert Matches(matcher, s, from) == [Span(from, n)] + Matches(matcher, s, from + n);
        LeftmostUnique(matcher, s, from + n, spans[1..]);
        assert spans == [spans[0]] + spans[1..];
      } else {
        LeftmostFromLater(matcher, s, from, spans);
        assert Matches(matcher, s, from) == Matches(matcher, s, from + 1);
        LeftmostUnique(matcher, s, from + 1, spans);
      }
    }
  }

  lemma {:induction false} SpliceSkip(s: string, spans: seq<Span>, from: nat, repl: string)
    requires from < |s| && Ordered(spans, from + 1, |s|)
    ensures Ordered(spans, from, |s|)
    ensures Splice(s, spans, from, repl) == [s[from]] + Splice(s, spans, from + 1, repl)
  {
    if spans == [] {
      assert s[from..] == [s[from]] + s[from + 1..];
    } else {
      var st, rest := spans[0].start, Splice(s, spans[1..], spans[0].start + spans[0].len, repl);
      assert s[from..st] == [s[from]] + s[from + 1..st];
      assert Splice(s, spans, from, repl) == s[from..st] + repl + rest;
      assert Splice(s, spans, from + 1, repl) == s[from + 1..st] + repl + rest;
    }
  }

  lemma SpliceMatch(s: string, rest: seq<Span>, from: nat, n: nat, repl: string)
    requires from + n <= |s| && Ordered(rest, from + n, |s|)
    ensures Ordered([Span(from, n)] + rest, from, |s|)
    ensures Splice(s, [Span(from, n)] + rest, from, repl) == repl + Splice(s, rest, from + n, repl)
  {
    var spans := [Span(from, n)] + rest;
    assert spans[0] == Span(from, n) && spans[1..] == rest;
    assert s[from..from] + repl == repl;
  }

  /** The scan and the two-phase reading agree: the output is the input with
      the matches the scan finds, and nothing else, replaced. */
  lemma {:induction false} ScanIsSplice(matcher: Matcher, repl: string, s: string, from: nat)
    requires from <= |s|
    ensures Ordered(Matches(matcher, s, from), from, |s|)
    ensures ReplaceFrom(matcher, repl, s, from) == Splice(s, Matches(matcher, s, from), from, repl)
    decreases |s| - from
  {
    if from < |s| {
      if matcher(s[from..]).Some? {
        ScanIsSplice(matcher, repl, s, from + matcher(s[from..]).value);
        ScanSpliceMatch(matcher, repl, s, from);
      } else {
        ScanIsSplice(matcher, repl, s, from + 1);
        ScanSpliceSkip(matcher, repl, s, from);
      }
    } else {
      assert s[from..] == [];
    }
  }

  /** A match at `from` keeps the scan and the splice in agreement. */
  lemma ScanSpliceMatch(matcher: Matcher, repl: string, s: string, from: nat)
    requires from < |s| && matcher(s[from..]).Some?
    requires var next := from + matcher(s[from..]).value;
      && Ordered(Matches(matcher, s, next), next, |s|)
      && ReplaceFrom(matcher, repl, s, next) == Splice(s, Matches(matcher, s, next), next, repl)
    ensures Ordered(Matches(matcher, s, from), from, |s|)
    ensures ReplaceFrom(matcher, repl, s, from) == Splice(s, Matches(matcher, s, from), from, repl)
  {
    var n := matcher(s[from..]).value;
    var rest := Matches(matcher, s, from + n);
    assert Matches(matcher, s, from) == [Span(from, n)] + rest;
    ReplaceSkipsOne(matcher, repl, s, from);
    SpliceMatch(s, rest, from, n, repl);
  }

  /** No match at `from` keeps the scan and the splice in agreement. */
  lemma ScanSpliceSkip(matcher: Matcher, repl: string, s: string, from: nat)
    requires from < |s| && matcher(s[from..]).None?
    requires Ordered(Matches(matcher, s, from + 1), from + 1, |s|)
    requires ReplaceFrom(matcher, repl, s, from + 1) == Splice(s, Matches(matcher, s, from + 1), from + 1, repl)
    ensures Ordered(Matches(matcher, s, from), from, |s|)
    ensures ReplaceFrom(matcher, repl, s, from) == Splice(s, Matches(matcher, s, from), from, repl)
  {
    assert Matches(matcher, s, from) == Matches(matcher, s, from + 1);
    ReplaceCopiesOne(matcher, repl, s, from);
    SpliceSkip(s, Matches(matcher, s, from + 1), from, repl);
  }

  /** The result of one step is its input with the leftmost matches replaced. */
  lemma {:induction false} ReplaceAllIsSplice(matcher: Matcher, repl: string, s: string)
    ensures LeftmostMatches(matcher, s, 0, Matches(matcher, s, 0))
    ensures Ordered(Matches(matcher, s, 0), 0, |s|)
    ensures ReplaceAll(matcher, repl, s) == Splice(s, Matches(matcher, s, 0), 0, repl)
  {
    MatchesAreLeftmost(matcher, s, 0);
    ScanIsSplice(matcher, repl, s, 0);
  }

  lemma {:induction false} SpliceLength(s: string, spans: seq<Span>, from: nat, repl: string)
    requires Ordered(spans, from, |s|)
    ensures |Splice(s, spans, from, repl)| + TotalLen(spans) == |s| - from + |spans| * |repl|
    decreases |spans|
  {
    if spans != [] {
      SpliceLength(s, spans[1..], spans[0].start + spans[0].len, repl);
      assert |spans| * |repl| == |repl| + |spans[1..]| * |repl|;
    }
  }

  /** A step whose expression matches nowhere returns its input. */
  lemma {:induction false} ReplaceWithoutMatch(matcher: Matcher, repl: string, s: string)
    requires NoMatchIn(matcher, s, 0, |s|)
    ensures ReplaceAll(matcher, repl, s) == s
  {
    LeftmostUnique(matcher, s, 0, []);
    ScanIsSplice(matcher, repl, s, 0);
  }

  /** The length of one step's output: every match of length `len` becomes
      `|repl|` characters. */
  lemma {:induction false} ReplaceLength(matcher: Matcher, repl: string, s: string)
    ensures |ReplaceAll(matcher, repl, s)| + TotalLen(Matches(matcher, s, 0))
            == |s| + |Matches(matcher, s, 0)| * |repl|
  {
    ReplaceAllIsSplice(matcher, repl, s);
    SpliceLength(s, Matches(matcher, s, 0), 0, repl);
  }

  lemma {:induction false} TotalLenPositive(spans: seq<Span>)
    requires forall k :: 0 <= k < |spans| ==> spans[k].len > 0
    ensures TotalLen(spans) >= |spans|
    ensures spans != [] ==> TotalLen(spans) > 0
    decreases |spans|
  {
    if spans != [] {
      assert forall k :: 1 <= k < |spans| ==> spans[k] == spans[1..][k - 1];
      TotalLenPositive(spans[1..]);
    }
  }

  /** A deleting step removes the disjoint spans of the leftmost matches and
      keeps everything else in order. It never lengthens its input, and it
      shortens it exactly when the expression matches somewhere. */
  lemma {:induction false} DeletionRemovesSpans(matcher: Matcher, s: string)
    ensures Ordered(Matches(matcher, s, 0), 0, |s|)
    ensures ReplaceAll(matcher, "", s) == Splice(s, Matches(matcher, s, 0), 0, "")
    ensures |ReplaceAll(matcher, "", s)| == |s| - TotalLen(Matches(matcher, s, 0))
    ensures |ReplaceAll(matcher, "", s)| < |s| <==> !NoMatchIn(matcher, s, 0, |s|)
    ensures ReplaceAll(matcher, "", s) == s <==> NoMatchIn(matcher, s, 0, |s|)
  {
    var spans := Matches(matcher, s, 0);
    ReplaceAllIsSplice(matcher, "", s);
    SpliceLength(s, spans, 0, "");
    LeftmostAreOrdered(matcher, s, 0, spans);
    TotalLenPositive(spans);
    if NoMatchIn(matcher, s, 0, |s|) {
      ReplaceWithoutMatch(matcher, "", s);
    } else {
      assert spans != [];
    }
  }

  lemma {:induction false} TotalLenAtLeast(spans: seq<Span>, min: nat)
    requires forall k :: 0 <= k < |spans| ==> spans[k].len >= min
    ensures TotalLen(spans) >= |spans| * min
    decreases |spans|
  {
    if spans != [] {
      assert forall k :: 1 <= k < |spans| ==> spans[k] == spans[1..][k - 1];
      TotalLenAtLeast(spans[1..], min);
      assert |spans| * min == min + |spans[1..]| * min;
    }
  }

  lemma SpansAtLeast(matcher: Matcher, s: string, from: nat, spans: seq<Span>, min: nat)
    requires from <= |s| && LeftmostMatches(matcher, s, from, spans)
    requires forall t :: matcher(t).Some? ==> matcher(t).value >= min
    ensures TotalLen(spans) >= |spans| * min
  {
    LeftmostAreMatches(matcher, s, from, spans);
    forall k | 0 <= k < |spans|
      ensures spans[k].len >= min
    {
      assert matcher(s[spans[k].start..]) == Some(spans[k].len);
    }
    TotalLenAtLeast(spans, min);
  }

  /** When every match is at least `min` long, each one changes the length
      by at most `|repl| - min`. */
  lemma ReplaceLengthBound(matcher: Matcher, repl: string, s: string, min: nat)
    requires forall t :: matcher(t).Some? ==> matcher(t).value >= min
    ensures |ReplaceAll(matcher, repl, s)| <= |s| + |Matches(matcher, s, 0)| * (|repl| - min)
  {
    var spans := Matches(matcher, s, 0);
    ReplaceLength(matcher, repl, s);
    MatchesAreLeftmost(matcher, s, 0);
    SpansAtLeast(matcher, s, 0, spans, min);
    assert |spans| * (|repl| - min) == |spans| * |repl| - |spans| * min;
  }

  /** When no match is shorter than the replacement, the step never
      lengthens its input. */
  lemma ReplaceNeverLengthens(matcher: Matcher, repl: string, s: string)
    requires forall t :: matcher(t).Some? ==> matcher(t).value >= |repl|
    ensures |ReplaceAll(matcher, repl, s)| <= |s|
  {
    ReplaceLengthBound(matcher, repl, s, |repl|);
  }

  // ---------------------------------------------------------------------
  // Reading the scan a stretch at a time

  /** Where no match starts, the scan copies one character. */
  lemma ReplaceCopiesOne(matcher: Matcher, repl: string, s: string, i: nat)
    requires i < |s| && matcher(s[i..]).None?
    ensures ReplaceFrom(matcher, repl, s, i) == [s[i]] + ReplaceFrom(matcher, repl, s, i + 1)
  {
  }

  lemma ReplaceSkipsOne(matcher: Matcher, repl: string, s: string, i: nat)
    requires i < |s| && matcher(s[i..]).Some?
    ensures ReplaceFrom(matcher, repl, s, i) == repl + ReplaceFrom(matcher, repl, s, i + matcher(s[i..]).value)
  {
  }

  lemma ConsSlice(s: string, i: nat, j: nat, rest: string)
    requires i < j <= |s|
    ensures [s[i]] + (s[i + 1..j] + rest) == s[i..j] + rest
  {
    assert [s[i]] + s[i + 1..j] == s[i..j];
  }

  /** Where no match starts, the scan copies the input unchanged. */
  lemma {:induction false} ReplaceCopies(matcher: Matcher, repl: string, s: string, i: nat, j: nat)
    requires i <= j <= |s| && NoMatchIn(matcher, s, i, j)
    ensures ReplaceFrom(matcher, repl, s, i) == s[i..j] + ReplaceFrom(matcher, repl, s, j)
    decreases j - i
  {
    if i < j {
      assert matcher(s[i..]).None?;
      assert NoMatchIn(matcher, s, i + 1, j);
      ReplaceCopies(matcher, repl, s, i + 1, j);
      ReplaceCopiesOne(matcher, repl, s, i);
      ConsSlice(s, i, j, ReplaceFrom(matcher, repl, s, j));
    }
  }

  /** A single match in `s`: the scan copies what is around it and puts the
      replacement in its place. */
  lemma ReplaceOneMatch(matcher: Matcher, repl: string, s: string, lo: nat, hi: nat)
    requires lo <= hi <= |s| && matcher(s[lo..]) == Some(hi - lo)
    requires NoMatchIn(matcher, s, 0, lo) && NoMatchIn(matcher, s, hi, |s|)
    ensures ReplaceAll(matcher, repl, s) == s[..lo] + repl + s[hi..]
  {
    var tail := ReplaceFrom(matcher, repl, s, hi);
    assert tail == s[hi..] by {
      ReplaceCopies(matcher, repl, s, hi, |s|);
      assert s[hi..|s|] + [] == s[hi..];
    }
    assert ReplaceFrom(matcher, repl, s, lo) == repl + tail;
    assert ReplaceFrom(matcher, repl, s, 0) == s[..lo] + (repl + tail) by {
      ReplaceCopies(matcher, repl, s, 0, lo);
      assert s[0..lo] == s[..lo];
    }
    assert s[..lo] + (repl + tail) == s[..lo] + repl + tail;
  }

  /** A single match in `s`, deleted: the scan keeps what is around it. */
  lemma DeleteOneMatch(matcher: Matcher, s: string, lo: nat, hi: nat)
    requires lo <= hi <= |s| && matcher(s[lo..]) == Some(hi - lo)
    requires NoMatchIn(matcher, s, 0, lo) && NoMatchIn(matcher, s, hi, |s|)
    ensures ReplaceAll(matcher, [], s) == s[..lo] + s[hi..]
  {
    ReplaceOneMatch(matcher, [], s, lo, hi);
    assert s[..lo] + [] == s[..lo];
  }

  /** A match covering the whole input leaves only the replacement. */
  lemma ReplaceWhole(matcher: Matcher, repl: string, s: string)
    requires matcher(s) == Some(|s|)
    ensures ReplaceAll(matcher, repl, s) == repl
  {
    assert s[0..] == s;
    assert ReplaceFrom(matcher, repl, s, |s|) == [];
    assert repl + [] == repl;
  }

  /** Every match that starts in `lo .. hi` ends at or before `hi`. */
  predicate MatchesEndBy(matcher: Matcher, s: string, lo: nat, hi: nat)
    requires lo <= hi <= |s|
  {
    forall j :: lo <= j < hi && matcher(s[j..]).Some? ==> j + matcher(s[j..]).value <= hi
  }

  /** With no match from `k` on, the scan from `k` is the input from `k` on. */
  lemma ReplaceFromQuiet(matcher: Matcher, repl: string, s: string, k: nat)
    requires k <= |s| && NoMatchIn(matcher, s, k, |s|)
    ensures EndsWith(ReplaceFrom(matcher, repl, s, k), s[k..])
  {
    var tail := ReplaceFrom(matcher, repl, s, k);
    ReplaceCopies(matcher, repl, s, k, |s|);
    assert ReplaceFrom(matcher, repl, s, |s|) == [];
    assert tail == s[k..] by {
      assert s[k..|s|] + [] == s[k..];
    }
    assert tail[|tail| - |s[k..]|..] == tail;
  }

  /** The scan from `i` ends with whatever the scan resumed after the
      match or the copied character at `i` ends with. */
  lemma ScanKeepsSuffix(matcher: Matcher, repl: string, s: string, i: nat, suffix: string)
    requires i < |s|
    requires var next := if matcher(s[i..]).Some? then i + matcher(s[i..]).value else i + 1;
      EndsWith(ReplaceFrom(matcher, repl, s, next), suffix)
    ensures EndsWith(ReplaceFrom(matcher, repl, s, i), suffix)
  {
    if matcher(s[i..]).Some? {
      var n := matcher(s[i..]).value;
      ReplaceSkipsOne(matcher, repl, s, i);
      EndsWithAfter(repl, ReplaceFrom(matcher, repl, s, i + n), ReplaceFrom(matcher, repl, s, i), suffix);
    } else {
      ReplaceCopiesOne(matcher, repl, s, i);
      EndsWithAfter([s[i]], ReplaceFrom(matcher, repl, s, i + 1), ReplaceFrom(matcher, repl, s, i), suffix);
    }
  }

  /** When no match starts at `k` or later, and no match that starts before
      `k` runs past it, the output ends with the input from `k` on. */
  lemma {:induction false} ReplaceKeepsTail(matcher: Matcher, repl: string, s: string, i: nat, k: nat)
    requires i <= k <= |s| && NoMatchIn(matcher, s, k, |s|)
    requires MatchesEndBy(matcher, s, i, k)
    ensures EndsWith(ReplaceFrom(matcher, repl, s, i), s[k..])
    decreases k - i
  {
    if i == k {
      ReplaceFromQuiet(matcher, repl, s, k);
    } else {
      var next := if matcher(s[i..]).Some? then i + matcher(s[i..]).value else i + 1;
      ReplaceKeepsTail(matcher, repl, s, next, k);
      ScanKeepsSuffix(matcher, repl, s, i, s[k..]);
    }
  }
}
