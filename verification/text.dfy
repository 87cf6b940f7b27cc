/**
 The white-space character class shared by `String.prototype.trim` and the
 regular-expression escape `\s`, and the trimming of form fields.

 Both are defined by ECMAScript as WhiteSpace together with LineTerminator,
 so one predicate serves both uses.
 */
module Text {

  /** ECMAScript WhiteSpace (TAB, VT, FF, ZWNBSP and every space separator of
      Unicode category Zs) together with LineTerminator (LF, CR, LS, PS). */
  predicate IsWs(c: char) {
    || c == '\t' || c == '\n' || c == '\U{000B}' || c == '\U{000C}' || c == '\r'
    || c == ' ' || c == '\U{00A0}' || c == '\U{1680}'
    || ('\U{2000}' <= c <= '\U{200A}')
    || c == '\U{2028}' || c == '\U{2029}' || c == '\U{202F}' || c == '\U{205F}'
    || c == '\U{3000}' || c == '\U{FEFF}'
  }

  predicate AllWs(s: string) {
    forall k :: 0 <= k < |s| ==> IsWs(s[k])
  }

  /** `r` is what remains of `s` once the white space at both ends is
      removed: the slice `s[i..j]` with only white space before `i` and from
      `j` on, whose first and last characters (if any) are not white space. */
  ghost predicate IsTrimOf(r: string, s: string) {
    exists i, j :: TrimBounds(s, i, j) && r == s[i..j]
  }

  ghost predicate TrimBounds(s: string, i: int, j: int) {
    && 0 <= i <= j <= |s|
    && (forall k :: 0 <= k < i ==> IsWs(s[k]))
    && (forall k :: j <= k < |s| ==> IsWs(s[k]))
    && (i < j ==> !IsWs(s[i]) && !IsWs(s[j - 1]))
  }

  /** Removes the leading white space. */
  function TrimStart(s: string): (r: string)
    ensures |r| <= |s| && r == s[|s| - |r|..]
    ensures forall k :: 0 <= k < |s| - |r| ==> IsWs(s[k])
    ensures r == [] || !IsWs(r[0])
    decreases |s|
  {
    if |s| > 0 && IsWs(s[0]) then TrimStart(s[1..]) else s
  }

  /** Removes the trailing white space. */
  function TrimEnd(s: string): (r: string)
    ensures |r| <= |s| && r == s[..|r|]
    ensures forall k :: |r| <= k < |s| ==> IsWs(s[k])
    ensures r == [] || !IsWs(r[|r| - 1])
    decreases |s|
  {
    if |s| > 0 && IsWs(s[|s| - 1]) then TrimEnd(s[..|s| - 1]) else s
  }

  /** `String.prototype.trim`. */
  function Trim(s: string): (r: string)
    ensures IsTrimOf(r, s)
  {
    var t := TrimStart(s);
    var r := TrimEnd(t);
    StartThenEndIsTrimOf(s, t, r);
    r
  }

  /** Cutting leading white space off `s` (giving `t`) and then trailing white
      space off `t` (giving `r`) leaves a trimmed form of `s`. */
  lemma StartThenEndIsTrimOf(s: string, t: string, r: string)
    requires |t| <= |s| && t == s[|s| - |t|..]
    requires forall k :: 0 <= k < |s| - |t| ==> IsWs(s[k])
    requires t == [] || !IsWs(t[0])
    requires |r| <= |t| && r == t[..|r|]
    requires forall k :: |r| <= k < |t| ==> IsWs(t[k])
    requires r == [] || !IsWs(r[|r| - 1])
    ensures IsTrimOf(r, s)
  {
    var i := |s| - |t|;
    var j := i + |r|;
    assert r == s[i..j];
    forall k | j <= k < |s|
      ensures IsWs(s[k])
    {
      assert s[k] == t[k - i];
    }
    assert TrimBounds(s, i, j);
  }

  /** A string has exactly one trimmed form. */
  lemma TrimOfUnique(r1: string, r2: string, s: string)
    requires IsTrimOf(r1, s) && IsTrimOf(r2, s)
    ensures r1 == r2
  {
  }

  /** A field trims to nothing exactly when it is all white space. */
  lemma TrimEmptyIffAllWs(s: string)
    ensures Trim(s) == [] <==> AllWs(s)
  {
  }

  /** White space added around a field does not change its trimmed form. */
  lemma TrimPadded(w1: string, s: string, w2: string)
    requires AllWs(w1) && AllWs(w2)
    ensures Trim(w1 + s + w2) == Trim(s)
  {
    PaddedTrimOf(w1, s, w2, Trim(s));
    TrimOfUnique(Trim(w1 + s + w2), Trim(s), w1 + s + w2);
  }

  lemma PaddedTrimOf(w1: string, s: string, w2: string, r: string)
    requires AllWs(w1) && AllWs(w2) && IsTrimOf(r, s)
    ensures IsTrimOf(r, w1 + s + w2)
  {
    LeftPaddedTrimOf(w1, s, r);
    RightPaddedTrimOf(w1 + s, w2, r);
  }

  /** White space in front keeps a trimmed form a trimmed form. */
  lemma LeftPaddedTrimOf(w: string, s: string, r: string)
    requires AllWs(w) && IsTrimOf(r, s)
    ensures IsTrimOf(r, w + s)
  {
    var i, j :| TrimBounds(s, i, j) && r == s[i..j];
    var p := w + s;
    var n := |w|;
    forall k | 0 <= k < n + i
      ensures IsWs(p[k])
    {
      if k < n { assert p[k] == w[k]; } else { assert p[k] == s[k - n]; }
    }
    forall k | n + j <= k < |p|
      ensures IsWs(p[k])
    {
      assert p[k] == s[k - n];
    }
    assert p[n..] == s;
    assert p[n + i..n + j] == r;
    assert TrimBounds(p, n + i, n + j);
  }

  /** White space behind keeps a trimmed form a trimmed form. */
  lemma RightPaddedTrimOf(s: string, w: string, r: string)
    requires AllWs(w) && IsTrimOf(r, s)
    ensures IsTrimOf(r, s + w)
  {
    var i, j :| TrimBounds(s, i, j) && r == s[i..j];
    var p := s + w;
    forall k | j <= k < |p|
      ensures IsWs(p[k])
    {
      if k < |s| { assert p[k] == s[k]; } else { assert p[k] == w[k - |s|]; }
    }
    assert p[..|s|] == s;
    assert p[i..j] == r;
    assert TrimBounds(p, i, j);
  }

  /** A field that neither starts nor ends with white space is left as it
      is. */
  lemma TrimKeepsTrimmed(s: string)
    requires s == [] || (!IsWs(s[0]) && !IsWs(s[|s| - 1]))
    ensures Trim(s) == s
  {
  }

  /** Trimming an already trimmed field changes nothing. */
  lemma TrimIdempotent(s: string)
    ensures Trim(Trim(s)) == Trim(s)
  {
  }
}
