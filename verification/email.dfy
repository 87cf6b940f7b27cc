/**
 The e-mail address test of the contact form, the regular expression
 `^[^\s@]+@[^\s@]+\.[^\s@]+$` applied to the trimmed address.

 `IsEmail` is the executable reading (split at the `@`, then look for an
 inner dot); `RegexMatches` is the expression read segment by segment. The
 two are proved equal, and the accepted addresses are characterised by
 their single `@`.
 */
module Email {
  import opened Text

  /** The character class `[^\s@]`. */
  predicate IsWord(c: char) {
    !IsWs(c) && c != '@'
  }

  predicate AllWord(s: string) {
    forall k :: 0 <= k < |s| ==> IsWord(s[k])
  }

  /** `d` has a dot that is neither its first nor its last character. */
  predicate HasInnerDot(d: string) {
    exists i :: 0 < i < |d| - 1 && d[i] == '.'
  }

  /** `s` is `L + "@" + D`, `L` non-empty, neither part holding white space
      or `@`, and `D` holding an inner dot. */
  predicate IsEmail(s: string): (b: bool)
    ensures b ==> 5 <= |s| && IsWord(s[0]) && IsWord(s[|s| - 1])
  {
    exists k :: 0 < k < |s| && s[k] == '@' && AllWord(s[..k]) && AllWord(s[k + 1..]) && HasInnerDot(s[k + 1..])
  }

  /** The anchored expression read literally: a non-empty `[^\s@]` run (up
      to `a`), `@` at `a`, a non-empty run, a dot at `d`, and a non-empty run
      that ends the input. */
  ghost predicate RegexMatches(s: string) {
    exists a, d :: RegexSplit(s, a, d)
  }

  ghost predicate RegexSplit(s: string, a: int, d: int) {
    && 0 < a && a + 1 < d && d + 1 < |s|
    && s[a] == '@' && s[d] == '.'
    && AllWord(s[..a]) && AllWord(s[a + 1..d]) && AllWord(s[d + 1..])
  }

  /** `AllWord` of a slice, stated on the indices of the whole string. */
  lemma AllWordSlice(s: string, lo: int, hi: int)
    requires 0 <= lo <= hi <= |s|
    ensures AllWord(s[lo..hi]) <==> forall k :: lo <= k < hi ==> IsWord(s[k])
  {
  }

  /** The split reading and the literal reading of the expression accept the
      same strings. */
  lemma EmailIffRegex(s: string)
    ensures IsEmail(s) <==> RegexMatches(s)
  {
    if IsEmail(s) {
      EmailIsRegex(s);
    }
    if RegexMatches(s) {
      RegexIsEmail(s);
    }
  }

  lemma EmailIsRegex(s: string)
    requires IsEmail(s)
    ensures RegexMatches(s)
  {
    var k :| 0 < k < |s| && s[k] == '@' && AllWord(s[..k]) && AllWord(s[k + 1..]) && HasInnerDot(s[k + 1..]);
    var i :| 0 < i < |s[k + 1..]| - 1 && s[k + 1..][i] == '.';
    var d := k + 1 + i;
    assert s[d] == '.';
    AllWordSlice(s, k + 1, |s|);
    AllWordSlice(s, k + 1, d);
    AllWordSlice(s, d + 1, |s|);
    assert RegexSplit(s, k, d);
  }

  lemma RegexIsEmail(s: string)
    requires RegexMatches(s)
    ensures IsEmail(s)
  {
  }

  /** No character of `s` is white space. */
  predicate NoWs(s: string) {
    forall k :: 0 <= k < |s| ==> !IsWs(s[k])
  }

  lemma SplitMultiset(s: string, k: int)
    requires 0 <= k < |s|
    ensures multiset(s) == multiset(s[..k]) + multiset{s[k]} + multiset(s[k + 1..])
  {
    assert s == s[..k] + [s[k]] + s[k + 1..];
  }

  /** An address is accepted exactly when it has no white space, exactly one
      `@`, something before the `@`, and after it a dot that is neither the
      first nor the last character. */
  lemma EmailCharacterization(s: string)
    ensures IsEmail(s) <==>
      && NoWs(s)
      && multiset(s)['@'] == 1
      && exists k :: 0 < k < |s| && s[k] == '@' && HasInnerDot(s[k + 1..])
  {
    if IsEmail(s) {
      EmailHasOneAt(s);
    }
    if && NoWs(s) && multiset(s)['@'] == 1
       && exists k :: 0 < k < |s| && s[k] == '@' && HasInnerDot(s[k + 1..])
    {
      var k :| 0 < k < |s| && s[k] == '@' && HasInnerDot(s[k + 1..]);
      OneAtIsEmail(s, k);
    }
  }

  lemma EmailHasOneAt(s: string)
    requires IsEmail(s)
    ensures NoWs(s) && multiset(s)['@'] == 1
  {
    var k :| 0 < k < |s| && s[k] == '@' && AllWord(s[..k]) && AllWord(s[k + 1..]) && HasInnerDot(s[k + 1..]);
    SplitMultiset(s, k);
    AllWordHasNoAt(s[..k]);
    AllWordHasNoAt(s[k + 1..]);
    AllWordSlice(s, 0, k);
    AllWordSlice(s, k + 1, |s|);
    assert s[..k] == s[0..k];
  }

  lemma AllWordHasNoAt(s: string)
    requires AllWord(s)
    ensures multiset(s)['@'] == 0
  {
  }

  lemma OneAtIsEmail(s: string, k: int)
    requires NoWs(s) && multiset(s)['@'] == 1
    requires 0 < k < |s| && s[k] == '@' && HasInnerDot(s[k + 1..])
    ensures IsEmail(s)
  {
    SplitMultiset(s, k);
    assert multiset(s[..k])['@'] == 0 && multiset(s[k + 1..])['@'] == 0;
    assert forall m :: 0 <= m < k ==> s[m] != '@' by {
      forall m | 0 <= m < k ensures s[m] != '@' {
        assert s[m] == s[..k][m];
      }
    }
    assert forall m :: k + 1 <= m < |s| ==> s[m] != '@' by {
      forall m | k + 1 <= m < |s| ensures s[m] != '@' {
        assert s[m] == s[k + 1..][m - k - 1];
      }
    }
    AllWordSlice(s, 0, k);
    AllWordSlice(s, k + 1, |s|);
    assert s[..k] == s[0..k];
  }
}
