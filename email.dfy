/**
 * CelestiaApp.isValidEmail, which tests the regular expression
 * ^[^\s@]+@[^\s@]+\.[^\s@]+$ . The validator is stated as the four
 * conditions the expression amounts to, and proved equal to a direct
 * reading of the expression.
 */
module Email {
  import opened Text

  /** A character of the class [^\s@]. */
  predicate IsAtomChar(c: char) {
    c != '@' && !IsWhitespace(c)
  }

  /** A string matched by [^\s@]+ . */
  predicate IsAtom(s: string) {
    |s| > 0 && forall i :: 0 <= i < |s| ==> IsAtomChar(s[i])
  }

  /** The language of ^[^\s@]+@[^\s@]+\.[^\s@]+$ : some '@' at `i` and some
      '.' at `j` split the string into three runs of [^\s@]. */
  ghost predicate MatchesPattern(s: string) {
    exists i, j :: 0 <= i < j < |s| && s[i] == '@' && s[j] == '.'
      && IsAtom(s[..i]) && IsAtom(s[i + 1..j]) && IsAtom(s[j + 1..])
  }

  /** The index of the first '@', or |s| when there is none. */
  function IndexOfAt(s: string): (k: nat)
    ensures k <= |s| && '@' !in s[..k]
    ensures k < |s| ==> s[k] == '@'
  {
    if s == [] then 0
    else if s[0] == '@' then 0
    else
      var k := 1 + IndexOfAt(s[1..]);
      assert s[..k] == [s[0]] + s[1..][..k - 1];
      k
  }

  /** A '.' that is neither the first nor the last character. */
  predicate HasInteriorDot(d: string) {
    exists k :: 0 < k < |d| - 1 && d[k] == '.'
  }

  /** isValidEmail: no whitespace, exactly one '@', a non-empty local part
      before it, and a domain after it holding an interior '.'. */
  predicate IsValidEmail(s: string)
    ensures IsValidEmail(s) ==> |s| >= 5 && NoWhitespace(s) && '@' in s
  {
    NoWhitespace(s) && multiset(s)['@'] == 1 &&
    var at := IndexOfAt(s);
    0 < at < |s| && HasInteriorDot(s[at + 1..])
  }

  lemma SplitMultiset(s: string, i: nat)
    requires i < |s|
    ensures multiset(s) == multiset(s[..i]) + multiset{s[i]} + multiset(s[i + 1..])
  {
    assert s == s[..i] + [s[i]] + s[i + 1..];
  }

  /** The regular expression accepts exactly the strings IsValidEmail
      describes. */
  lemma ValidIffMatchesPattern(s: string)
    ensures IsValidEmail(s) <==> MatchesPattern(s)
  {
    if IsValidEmail(s) {
      ValidMatches(s);
    }
    if MatchesPattern(s) {
      var i, j :| 0 <= i < j < |s| && s[i] == '@' && s[j] == '.'
        && IsAtom(s[..i]) && IsAtom(s[i + 1..j]) && IsAtom(s[j + 1..]);
      MatchIsValid(s, i, j);
    }
  }

  lemma ValidMatches(s: string)
    requires IsValidEmail(s)
    ensures MatchesPattern(s)
  {
    var at := IndexOfAt(s);
    var d := s[at + 1..];
    var k :| 0 < k < |d| - 1 && d[k] == '.';
    var j := at + 1 + k;
    SplitMultiset(s, at);
    assert '@' !in multiset(d);
    assert s[at + 1..j] == d[..k] && s[j + 1..] == d[k + 1..];
    assert s[j] == '.';
    assert IsAtom(s[..at]);
    assert IsAtom(s[at + 1..j]);
    assert IsAtom(s[j + 1..]);
  }

  lemma MatchIsValid(s: string, i: nat, j: nat)
    requires i < j < |s| && s[i] == '@' && s[j] == '.'
    requires IsAtom(s[..i]) && IsAtom(s[i + 1..j]) && IsAtom(s[j + 1..])
    ensures IsValidEmail(s)
  {
    forall k | 0 <= k < |s|
      ensures !IsWhitespace(s[k])
    {
      if k < i {
        assert s[k] == s[..i][k];
      } else if i < k < j {
        assert s[k] == s[i + 1..j][k - i - 1];
      } else if j < k {
        assert s[k] == s[j + 1..][k - j - 1];
      }
    }
    var d := s[i + 1..];
    assert d == s[i + 1..j] + [s[j]] + s[j + 1..];
    assert '@' !in s[..i] && '@' !in d;
    SplitMultiset(s, i);
    assert IndexOfAt(s) == i;
    assert d[j - i - 1] == '.';
  }

  /** The examples the validator is meant to decide: one accepted address,
      and the empty string, a missing top-level dot, whitespace and an empty
      local part rejected. */
  lemma AcceptsExample()
    ensures IsValidEmail("a@b.co")
  {
    var ok := "a@b.co";
    assert ok[..1] == "a" && ok[2..3] == "b" && ok[4..] == "co";
    MatchIsValid(ok, 1, 3);
  }

  lemma RejectsExamples()
    ensures !IsValidEmail("")
    ensures !IsValidEmail("a@b")
    ensures !IsValidEmail("a b@c.com")
    ensures !IsValidEmail("@b.com")
  {
    assert IsWhitespace("a b@c.com"[1]);
    assert IndexOfAt("@b.com") == 0;
    assert IndexOfAt("a@b") == 1;
    assert !HasInteriorDot("a@b"[2..]);
  }
}
