/** Character classes and literal matching as the regular expressions of
    src/components/sanitise.ts see them.

    The expressions are written without the `u` flag, so `\w`, `\d` and `\b`
    are ASCII-only and the `i` flag equates an ASCII letter with its other
    case and nothing else (a non-ASCII character never folds onto an ASCII
    one). `\s` is the full ECMAScript WhiteSpace and LineTerminator set. */
module Text {

  datatype Option<T> = None | Some(value: T)

  /** `\w`: `[A-Za-z0-9_]`. */
  predicate IsWordChar(c: char) {
    'a' <= c <= 'z' || 'A' <= c <= 'Z' || '0' <= c <= '9' || c == '_'
  }

  /** `\d`: `[0-9]`. */
  predicate IsDigit(c: char) {
    '0' <= c <= '9'
  }

  /** `\s`: TAB, LF, VT, FF, CR, SPACE, NBSP, the Unicode space separators,
      LINE SEPARATOR, PARAGRAPH SEPARATOR and the byte order mark. */
  predicate IsSpace(c: char) {
    var x := c as int;
    (0x09 <= x <= 0x0D) || x == 0x20 || x == 0xA0 || x == 0x1680
    || (0x2000 <= x <= 0x200A) || x == 0x2028 || x == 0x2029
    || x == 0x202F || x == 0x205F || x == 0x3000 || x == 0xFEFF
  }

  /** The case folding of the `i` flag restricted to what it can equate:
      ASCII upper-case letters become lower-case, everything else stays. */
  function Fold(c: char): (f: char)
    ensures 'A' <= c <= 'Z' ==> 'a' <= f <= 'z' && f as int == c as int + 32
    ensures !('A' <= c <= 'Z') ==> f == c
  {
    if 'A' <= c <= 'Z' then (c as int + 32) as char else c
  }

  /** `lit` occurs in `t` at index `i`, character for character. */
  predicate StartsWithAt(t: string, i: int, lit: string) {
    0 <= i && i + |lit| <= |t| && forall k :: 0 <= k < |lit| ==> t[i + k] == lit[k]
  }

  /** `lit` occurs in `t` at index `i` up to ASCII case. */
  predicate StartsWithCiAt(t: string, i: int, lit: string) {
    0 <= i && i + |lit| <= |t| && forall k :: 0 <= k < |lit| ==> Fold(t[i + k]) == Fold(lit[k])
  }

  /** `\b` at index `i`: exactly one of the characters around `i` is a word
      character (outside the string counts as a non-word character). */
  predicate WordBoundaryAt(t: string, i: int) {
    (0 < i <= |t| && IsWordChar(t[i - 1])) != (0 <= i < |t| && IsWordChar(t[i]))
  }

  /** The character classes that the expressions repeat with `*` or `+`. */
  datatype CharClass = Word | Digit | Space | NotSpaceOrGt

  predicate In(cls: CharClass, c: char) {
    match cls
    case Word => IsWordChar(c)
    case Digit => IsDigit(c)
    case Space => IsSpace(c)
    case NotSpaceOrGt => !IsSpace(c) && c != '>'
  }

  /** Length of the longest run of `cls` characters starting at `i`: what a
      greedy `cls*` consumes there. */
  function Run(t: string, i: nat, cls: CharClass): (r: nat)
    requires i <= |t|
    ensures i + r <= |t|
    ensures forall k :: i <= k < i + r ==> In(cls, t[k])
    ensures i + r == |t| || !In(cls, t[i + r])
    decreases |t| - i
  {
    if i == |t| || !In(cls, t[i]) then 0 else 1 + Run(t, i + 1, cls)
  }

  /** The first index at or after `i` holding `c`. */
  function FindChar(t: string, i: nat, c: char): (r: Option<nat>)
    requires i <= |t|
    ensures r.Some? ==> i <= r.value < |t| && t[r.value] == c
    ensures r.Some? ==> forall k :: i <= k < r.value ==> t[k] != c
    ensures r.None? ==> forall k :: i <= k < |t| ==> t[k] != c
    decreases |t| - i
  {
    if i == |t| then None
    else if t[i] == c then Some(i)
    else FindChar(t, i + 1, c)
  }

  /** The first index at or after `i` where `lit` occurs up to ASCII case. */
  function FindCi(t: string, i: nat, lit: string): (r: Option<nat>)
    requires i <= |t|
    ensures r.Some? ==> i <= r.value && StartsWithCiAt(t, r.value, lit)
    ensures r.Some? ==> forall k :: i <= k < r.value ==> !StartsWithCiAt(t, k, lit)
    ensures r.None? ==> forall k :: i <= k <= |t| ==> !StartsWithCiAt(t, k, lit)
    decreases |t| - i
  {
    if StartsWithCiAt(t, i, lit) then Some(i)
    else if i == |t| then None
    else FindCi(t, i + 1, lit)
  }

  /** Literal matching only looks at the characters it covers, so it is the
      same in a string and in any prefix of it that contains the occurrence. */
  lemma StartsWithCiInPrefix(t: string, m: nat, i: int, lit: string)
    requires m <= |t| && 0 <= i && i + |lit| <= m
    ensures StartsWithCiAt(t[..m], i, lit) <==> StartsWithCiAt(t, i, lit)
  {
  }

  lemma StartsWithInPrefix(t: string, m: nat, i: int, lit: string)
    requires m <= |t| && 0 <= i && i + |lit| <= m
    ensures StartsWithAt(t[..m], i, lit) <==> StartsWithAt(t, i, lit)
  {
  }

  /** Folding is the identity on everything but ASCII letters, so a
      case-insensitive match of a character that is not a letter is exact. */
  lemma FoldNonLetter(c: char, x: char)
    requires !('a' <= x <= 'z') && !('A' <= x <= 'Z')
    ensures Fold(c) == Fold(x) <==> c == x
  {
  }

  /** A run that is known to stop at `e` is the greedy run. */
  lemma RunStopsAt(t: string, i: nat, cls: CharClass, e: nat)
    requires i <= e < |t|
    requires forall k :: i <= k < e ==> In(cls, t[k])
    requires !In(cls, t[e])
    ensures Run(t, i, cls) == e - i
  {
  }

  /** Every run of `cls` characters from `i` is covered by the greedy run. */
  lemma RunCovers(t: string, i: nat, cls: CharClass, j: nat)
    requires i <= j <= |t|
    requires forall k :: i <= k < j ==> In(cls, t[k])
    ensures j <= i + Run(t, i, cls)
  {
  }

  /** Matching in a suffix is matching in the whole string, shifted. */
  lemma StartsWithCiInSuffix(s: string, k: nat, i: nat, lit: string)
    requires k <= |s|
    ensures StartsWithCiAt(s[k..], i, lit) <==> StartsWithCiAt(s, k + i, lit)
  {
  }

  lemma StartsWithInSuffix(s: string, k: nat, i: nat, lit: string)
    requires k <= |s|
    ensures StartsWithAt(s[k..], i, lit) <==> StartsWithAt(s, k + i, lit)
  {
  }

  // ---------------------------------------------------------------------
  // The `i` flag: strings equal up to ASCII case are matched alike

  /** `t` and `u` differ at most in the case of ASCII letters. */
  predicate SameUpToCase(t: string, u: string) {
    |t| == |u| && forall i :: 0 <= i < |t| ==> Fold(t[i]) == Fold(u[i])
  }

  /** None of the repeated classes tells an upper-case letter from its
      lower-case partner. */
  lemma ClassIgnoresCase(cls: CharClass, c: char, d: char)
    requires Fold(c) == Fold(d)
    ensures In(cls, c) <==> In(cls, d)
  {
  }

  lemma {:induction false} RunIgnoresCase(t: string, u: string, i: nat, cls: CharClass)
    requires SameUpToCase(t, u) && i <= |t|
    ensures Run(t, i, cls) == Run(u, i, cls)
    decreases |t| - i
  {
    if i < |t| {
      ClassIgnoresCase(cls, t[i], u[i]);
      RunIgnoresCase(t, u, i + 1, cls);
    }
  }

  lemma StartsWithCiIgnoresCase(t: string, u: string, i: int, lit: string)
    requires SameUpToCase(t, u)
    ensures StartsWithCiAt(t, i, lit) <==> StartsWithCiAt(u, i, lit)
  {
  }

  /** The search finds the first occurrence. */
  lemma FindCiAt(t: string, i: nat, lit: string, j: nat)
    requires i <= j <= |t| && StartsWithCiAt(t, j, lit)
    requires forall k :: i <= k < j ==> !StartsWithCiAt(t, k, lit)
    ensures FindCi(t, i, lit) == Some(j)
  {
  }

  /** The search depends only on where the literal occurs. */
  lemma FindCiAlike(t: string, u: string, i: nat, lit: string)
    requires i <= |t| == |u|
    requires forall k :: i <= k <= |t| ==> (StartsWithCiAt(t, k, lit) <==> StartsWithCiAt(u, k, lit))
    ensures FindCi(t, i, lit) == FindCi(u, i, lit)
  {
    var r, q := FindCi(t, i, lit), FindCi(u, i, lit);
    if r.Some? {
      assert StartsWithCiAt(u, r.value, lit);
    }
    if q.Some? {
      assert StartsWithCiAt(t, q.value, lit);
    }
  }

  lemma FindCiIgnoresCase(t: string, u: string, i: nat, lit: string)
    requires SameUpToCase(t, u) && i <= |t|
    ensures FindCi(t, i, lit) == FindCi(u, i, lit)
  {
    forall k | i <= k <= |t|
      ensures StartsWithCiAt(t, k, lit) <==> StartsWithCiAt(u, k, lit)
    {
      StartsWithCiIgnoresCase(t, u, k, lit);
    }
    FindCiAlike(t, u, i, lit);
  }

  /** `r` ends with `suffix`. */
  predicate EndsWith(r: string, suffix: string) {
    |suffix| <= |r| && r[|r| - |suffix|..] == suffix
  }

  lemma EndsWithAfter(p: string, r: string, full: string, suffix: string)
    requires full == p + r && EndsWith(r, suffix)
    ensures EndsWith(full, suffix)
  {
    assert full[|full| - |suffix|..] == r[|r| - |suffix|..];
  }
}
