/** The string operations the shop relies on: JavaScript's `trim` (applied by
    the schemas to names, descriptions and UPI transaction ids) and the
    case-insensitive substring test behind the catalog's name search. */
module Text {

  /** The characters `String.prototype.trim` strips: ECMAScript WhiteSpace
      and LineTerminator code points. */
  predicate IsSpace(ch: char) {
    || ch == ' ' || ch == '\t' || ch == '\n' || ch == '\r'
    || ch == '\U{000B}' || ch == '\U{000C}' || ch == '\U{00A0}' || ch == '\U{1680}'
    || ('\U{2000}' <= ch <= '\U{200A}')
    || ch == '\U{2028}' || ch == '\U{2029}' || ch == '\U{202F}' || ch == '\U{205F}'
    || ch == '\U{3000}' || ch == '\U{FEFF}'
  }

  predicate AllSpace(s: string) {
    forall i | 0 <= i < |s| :: IsSpace(s[i])
  }

  /** Neither end of `s` is whitespace. */
  predicate Trimmed(s: string) {
    |s| == 0 || (!IsSpace(s[0]) && !IsSpace(s[|s| - 1]))
  }

  function TrimStart(s: string): (r: string)
    ensures |r| <= |s| && r == s[|s| - |r|..]
    ensures AllSpace(s[..|s| - |r|])
    ensures |r| == 0 || !IsSpace(r[0])
  {
    if |s| > 0 && IsSpace(s[0]) then TrimStart(s[1..]) else s
  }

  function TrimEnd(s: string): (r: string)
    ensures |r| <= |s| && r == s[..|r|]
    ensures AllSpace(s[|r|..])
    ensures |r| == 0 || !IsSpace(r[|r| - 1])
  {
    if |s| > 0 && IsSpace(s[|s| - 1]) then TrimEnd(s[..|s| - 1]) else s
  }

  /** `s` without its leading and trailing whitespace: the result is the
      slice of `s` that remains once whitespace runs at both ends are cut,
      and it is trimmed. */
  function Trim(s: string): (r: string)
    ensures Trimmed(r)
    ensures exists i :: Cut(s, r, i)
  {
    var e := TrimEnd(s);
    var r := TrimStart(e);
    SliceOfSlice(s, e, r);
    assert Cut(s, r, |e| - |r|);
    r
  }

  /** `r` is the slice of `s` at position `i`, with only whitespace before
      and after it. */
  predicate Cut(s: string, r: string, i: int) {
    && 0 <= i <= |s| - |r|
    && r == s[i..i + |r|]
    && AllSpace(s[..i])
    && AllSpace(s[i + |r|..])
  }

  /** A suffix `r` of a prefix `e` of `s`, each cut off by whitespace only,
      is a slice of `s` with whitespace only around it, and it ends where
      `e` ends. */
  lemma SliceOfSlice(s: string, e: string, r: string)
    requires |e| <= |s| && e == s[..|e|] && AllSpace(s[|e|..])
    requires |r| <= |e| && r == e[|e| - |r|..] && AllSpace(e[..|e| - |r|])
    ensures var i := |e| - |r|;
            && r == s[i..i + |r|]
            && AllSpace(s[..i])
            && AllSpace(s[i + |r|..])
            && (|r| > 0 ==> r[|r| - 1] == e[|e| - 1])
  {
    var i := |e| - |r|;
    assert s[..i] == e[..i];
    assert i + |r| == |e|;
  }

  /** A string that is already trimmed is left alone, so trimming twice is
      the same as trimming once. */
  lemma TrimKeepsTrimmed(s: string)
    requires Trimmed(s)
    ensures Trim(s) == s
  {
  }

  lemma {:induction false} TrimIdempotent(s: string)
    ensures Trim(Trim(s)) == Trim(s)
  {
    TrimKeepsTrimmed(Trim(s));
  }

  /** Case folding of the name search, restricted to ASCII letters. */
  function LowerChar(ch: char): (r: char)
    ensures 'A' <= ch <= 'Z' ==> r as int == ch as int + 32
    ensures !('A' <= ch <= 'Z') ==> r == ch
  {
    if 'A' <= ch <= 'Z' then (ch as int + 32) as char else ch
  }

  function Lower(s: string): (r: string)
    ensures |r| == |s|
    ensures forall i | 0 <= i < |s| :: r[i] == LowerChar(s[i])
  {
    seq(|s|, i requires 0 <= i < |s| => LowerChar(s[i]))
  }

  /** `p` occurs in `s` starting at position `i`. */
  predicate OccursAt(p: string, s: string, i: int) {
    0 <= i <= |s| - |p| && s[i..i + |p|] == p
  }

  /** `p` occurs in `s` as a contiguous slice. */
  predicate IsInfix(p: string, s: string) {
    exists i | 0 <= i <= |s| - |p| :: OccursAt(p, s, i)
  }

  /** The name filter of the catalog search: `needle` occurs in `hay` when
      ASCII letter case is ignored. */
  predicate ContainsIgnoreCase(hay: string, needle: string) {
    IsInfix(Lower(needle), Lower(hay))
  }

  lemma LowerIdempotent(s: string)
    ensures Lower(Lower(s)) == Lower(s)
  {
  }

  lemma {:induction false} LowerSlice(s: string, i: int, j: int)
    requires 0 <= i <= j <= |s|
    ensures Lower(s[i..j]) == Lower(s)[i..j]
  {
    assert forall k | 0 <= k < j - i :: Lower(s[i..j])[k] == Lower(s)[i..j][k];
  }

  /** Every slice of a name is found by a search for it. */
  lemma {:induction false} SliceIsFound(s: string, i: int, j: int)
    requires 0 <= i <= j <= |s|
    ensures ContainsIgnoreCase(s, s[i..j])
  {
    LowerSlice(s, i, j);
    var p := Lower(s[i..j]);
    assert OccursAt(p, Lower(s), i);
  }

  /** Changing the letter case of the search text does not change what it
      finds, in both directions. */
  lemma {:induction false} NeedleCaseIrrelevant(hay: string, needle: string)
    ensures ContainsIgnoreCase(hay, needle) <==> ContainsIgnoreCase(hay, Lower(needle))
  {
    LowerIdempotent(needle);
  }

  lemma {:induction false} HayCaseIrrelevant(hay: string, needle: string)
    ensures ContainsIgnoreCase(hay, needle) <==> ContainsIgnoreCase(Lower(hay), needle)
  {
    LowerIdempotent(hay);
  }
}
