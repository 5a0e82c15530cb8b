/** The syntactic e-mail check that the generate handler applies before it
    stores anything: the pattern ^[^\s@]+@[^\s@]+\.[^\s@]+$ (no flags). */
module Email {

  /** The characters JavaScript's `\s` class matches: the ECMAScript
      WhiteSpace and LineTerminator code points. */
  predicate IsWhitespace(c: char) {
    || c == ' ' || c == '\t' || c == '\n' || c == '\r'
    || c == '\U{000B}' || c == '\U{000C}' || c == '\U{00A0}' || c == '\U{1680}'
    || ('\U{2000}' <= c <= '\U{200A}')
    || c == '\U{2028}' || c == '\U{2029}' || c == '\U{202F}' || c == '\U{205F}'
    || c == '\U{3000}' || c == '\U{FEFF}'
  }

  /** A character admitted by the class `[^\s@]`. */
  predicate IsAtomChar(c: char) {
    c != '@' && !IsWhitespace(c)
  }

  /** A string matched by `[^\s@]+`. */
  predicate IsAtomRun(t: string) {
    |t| > 0 && forall k :: 0 <= k < |t| ==> IsAtomChar(t[k])
  }

  /** The pattern read literally: the string splits as A "@" B "." C with
      each of A, B, C a non-empty run of `[^\s@]`. The anchors ^ and $
      without the m flag bind the whole string. */
  ghost predicate MatchesPattern(s: string) {
    exists i, j ::
      0 <= i < j < |s| && s[i] == '@' && s[j] == '.' &&
      IsAtomRun(s[..i]) && IsAtomRun(s[i + 1..j]) && IsAtomRun(s[j + 1..])
  }

  /** The index of the first occurrence of c in s, or |s| if there is none. */
  function FirstIndexOf(s: string, c: char): (i: nat)
    ensures i <= |s|
    ensures i < |s| ==> s[i] == c
    ensures forall k :: 0 <= k < i ==> s[k] != c
  {
    if s == [] then 0
    else if s[0] == c then 0
    else 1 + FirstIndexOf(s[1..], c)
  }

  /** A domain the pattern admits after the "@": `[^\s@]+\.[^\s@]+`. */
  predicate IsDomain(d: string) {
    && |d| >= 3
    && (forall k :: 0 <= k < |d| ==> IsAtomChar(d[k]))
    && '.' in d[1..|d| - 1]
  }

  /** s splits at position i into a local part and a domain the pattern admits. */
  predicate SplitsAt(s: string, i: nat) {
    0 < i < |s| && IsAtomRun(s[..i]) && IsDomain(s[i + 1..])
  }

  /** The check `emailRegex.test(email)`, computed by splitting at the first
      "@"; it accepts exactly the strings the pattern matches. */
  predicate IsValidEmail(s: string): (ok: bool)
    ensures ok <==> MatchesPattern(s)
  {
    FirstAtSplitIffPattern(s);
    SplitsAt(s, FirstIndexOf(s, '@'))
  }

  /** The same set of strings described as the pattern's accepted language in
      words: no whitespace, exactly one "@", a non-empty local part, and a
      domain holding a "." that is neither its first nor its last character. */
  ghost predicate IsPlainAddress(s: string) {
    && (forall k :: 0 <= k < |s| ==> !IsWhitespace(s[k]))
    && multiset(s)['@'] == 1
    && exists i, j :: 0 < i && i + 1 < j < |s| - 1 && s[i] == '@' && s[j] == '.'
  }

  lemma AtomRunHasNoAt(t: string)
    requires forall k :: 0 <= k < |t| ==> IsAtomChar(t[k])
    ensures '@' !in t && multiset(t)['@'] == 0
  {
  }

  /** Every slice of a string of `[^\s@]` characters is one too. */
  lemma AtomSlice(t: string, lo: nat, hi: nat)
    requires lo <= hi <= |t|
    requires forall k :: 0 <= k < |t| ==> IsAtomChar(t[k])
    ensures forall k :: 0 <= k < hi - lo ==> IsAtomChar(t[lo..hi][k])
  {
    forall k | 0 <= k < hi - lo ensures IsAtomChar(t[lo..hi][k]) {
      assert t[lo..hi][k] == t[lo + k];
    }
  }

  /** A string joined from atom runs around "." is a domain. */
  lemma DomainFromParts(b: string, c: string)
    requires IsAtomRun(b) && IsAtomRun(c)
    ensures IsDomain(b + ['.'] + c)
  {
    var d := b + ['.'] + c;
    forall k | 0 <= k < |d| ensures IsAtomChar(d[k]) {
      if k < |b| {
        assert d[k] == b[k];
      } else if k > |b| {
        assert d[k] == c[k - |b| - 1];
      } else {
        assert d[k] == '.';
      }
    }
    assert d[1..|d| - 1][|b| - 1] == '.';
  }

  lemma {:induction false} SplitMatches(s: string)
    requires SplitsAt(s, FirstIndexOf(s, '@'))
    ensures MatchesPattern(s)
  {
    var i := FirstIndexOf(s, '@');
    var d := s[i + 1..];
    var inner := d[1..|d| - 1];
    var k' :| 0 <= k' < |inner| && inner[k'] == '.';
    var k := k' + 1;
    var j := i + 1 + k;
    assert s[j] == '.' by { assert s[j] == d[k] == inner[k']; }
    assert s[i + 1..j] == d[..k];
    assert s[j + 1..] == d[k + 1..];
    AtomSlice(d, 0, k);
    AtomSlice(d, k + 1, |d|);
    assert d[..k] == d[0..k];
    assert IsAtomRun(s[i + 1..j]) && IsAtomRun(s[j + 1..]);
    assert 0 <= i < j < |s| && s[i] == '@' && s[j] == '.' &&
      IsAtomRun(s[..i]) && IsAtomRun(s[i + 1..j]) && IsAtomRun(s[j + 1..]);
  }

  lemma {:induction false} PatternSplits(s: string, i: nat, j: nat)
    requires 0 <= i < j < |s| && s[i] == '@' && s[j] == '.'
    requires IsAtomRun(s[..i]) && IsAtomRun(s[i + 1..j]) && IsAtomRun(s[j + 1..])
    ensures SplitsAt(s, FirstIndexOf(s, '@'))
  {
    var f := FirstIndexOf(s, '@');
    assert f == i;
    assert s[i + 1..] == s[i + 1..j] + ['.'] + s[j + 1..];
    DomainFromParts(s[i + 1..j], s[j + 1..]);
  }

  /** Splitting at the first "@" decides exactly the pattern. */
  lemma {:induction false} FirstAtSplitIffPattern(s: string)
    ensures SplitsAt(s, FirstIndexOf(s, '@')) <==> MatchesPattern(s)
  {
    if SplitsAt(s, FirstIndexOf(s, '@')) {
      SplitMatches(s);
    }
    if MatchesPattern(s) {
      var i, j :| 0 <= i < j < |s| && s[i] == '@' && s[j] == '.' &&
        IsAtomRun(s[..i]) && IsAtomRun(s[i + 1..j]) && IsAtomRun(s[j + 1..]);
      PatternSplits(s, i, j);
    }
  }

  lemma PatternIsPlainAddress(s: string, i: nat, j: nat)
    requires 0 <= i < j < |s| && s[i] == '@' && s[j] == '.'
    requires IsAtomRun(s[..i]) && IsAtomRun(s[i + 1..j]) && IsAtomRun(s[j + 1..])
    ensures IsPlainAddress(s)
  {
    var a, b, c := s[..i], s[i + 1..j], s[j + 1..];
    assert s == a + ['@'] + b + ['.'] + c;
    AtomRunHasNoAt(a);
    AtomRunHasNoAt(b);
    AtomRunHasNoAt(c);
    assert multiset(s) == multiset(a) + multiset(['@']) + multiset(b) + multiset(['.']) + multiset(c);
    forall k | 0 <= k < |s| ensures !IsWhitespace(s[k]) {
      if k < i {
        assert s[k] == a[k];
      } else if i < k < j {
        assert s[k] == b[k - i - 1];
      } else if j < k {
        assert s[k] == c[k - j - 1];
      }
    }
  }

  /** A character of a string whose multiset holds no "@" is not "@". */
  lemma NoAtFromCount(t: string)
    requires multiset(t)['@'] == 0
    requires forall k :: 0 <= k < |t| ==> !IsWhitespace(t[k])
    ensures IsAtomRun(t) <==> |t| > 0
  {
    forall k | 0 <= k < |t| ensures IsAtomChar(t[k]) {
      assert t[k] in multiset(t);
    }
  }

  lemma PlainAddressMatches(s: string, i: nat, j: nat)
    requires IsPlainAddress(s)
    requires 0 < i && i + 1 < j < |s| - 1 && s[i] == '@' && s[j] == '.'
    ensures MatchesPattern(s)
  {
    var a, b, c := s[..i], s[i + 1..j], s[j + 1..];
    assert s == a + ['@'] + b + ['.'] + c;
    assert multiset(s) == multiset(a) + multiset(['@']) + multiset(b) + multiset(['.']) + multiset(c);
    assert multiset(a)['@'] == 0 && multiset(b)['@'] == 0 && multiset(c)['@'] == 0;
    assert forall k :: 0 <= k < |a| ==> a[k] == s[k];
    assert forall k :: 0 <= k < |b| ==> b[k] == s[i + 1 + k];
    assert forall k :: 0 <= k < |c| ==> c[k] == s[j + 1 + k];
    NoAtFromCount(a);
    NoAtFromCount(b);
    NoAtFromCount(c);
    assert IsAtomRun(s[..i]) && IsAtomRun(s[i + 1..j]) && IsAtomRun(s[j + 1..]);
  }

  /** The pattern's language, described in words, is the language of the check. */
  lemma {:induction false} ValidEmailIffPlainAddress(s: string)
    ensures IsValidEmail(s) <==> IsPlainAddress(s)
  {
    if MatchesPattern(s) {
      var i, j :| 0 <= i < j < |s| && s[i] == '@' && s[j] == '.' &&
        IsAtomRun(s[..i]) && IsAtomRun(s[i + 1..j]) && IsAtomRun(s[j + 1..]);
      PatternIsPlainAddress(s, i, j);
    }
    if IsPlainAddress(s) {
      var i, j :| 0 < i && i + 1 < j < |s| - 1 && s[i] == '@' && s[j] == '.';
      PlainAddressMatches(s, i, j);
    }
  }
}
