/** Counting the places where a pattern occurs in a string, and when that count adds up
    over a concatenation. */
module Patterns {

  predicate StartsWith(s: string, q: string)
  {
    |q| <= |s| && s[..|q|] == q
  }

  predicate EndsWith(s: string, q: string)
  {
    |q| <= |s| && s[|s| - |q|..] == q
  }

  predicate Avoids(s: string, c: char)
  {
    forall i :: 0 <= i < |s| ==> s[i] != c
  }

  /** Number of positions of `s` at which `p` starts (overlapping ones included). */
  function Occurrences(s: string, p: string): nat
    requires |p| > 0
  {
    if |s| < |p| then 0 else (if s[..|p|] == p then 1 else 0) + Occurrences(s[1..], p)
  }

  /** No occurrence of `p` in `a + b` starts inside `a` and ends inside `b`. */
  predicate NoStraddle(a: string, b: string, p: string)
  {
    forall k :: 1 <= k < |p| ==> !(EndsWith(a, p[..k]) && StartsWith(b, p[k..]))
  }

  /** No proper suffix of `p` is also a prefix of it, so two occurrences never overlap. */
  predicate Unbordered(p: string)
  {
    forall k :: 1 <= k < |p| ==> p[k..] != p[..|p| - k]
  }

  lemma {:induction false} OccurrencesConcat(a: string, b: string, p: string)
    requires |p| > 0 && NoStraddle(a, b, p)
    ensures Occurrences(a + b, p) == Occurrences(a, p) + Occurrences(b, p)
  {
    if a == [] {
      assert a + b == b;
    } else {
      assert (a + b)[1..] == a[1..] + b;
      forall k | 1 <= k < |p| && EndsWith(a[1..], p[..k])
        ensures !StartsWith(b, p[k..])
      {
        assert a[1..][|a| - 1 - k..] == a[|a| - k..];
        assert EndsWith(a, p[..k]);
      }
      assert NoStraddle(a[1..], b, p);
      OccurrencesConcat(a[1..], b, p);
      if |a| >= |p| {
        assert (a + b)[..|p|] == a[..|p|];
      } else if |a + b| >= |p| {
        // an occurrence at position 0 would start in `a` and end in `b`
        var k := |a|;
        assert (a + b)[..|p|][..k] == a;
        assert (a + b)[..|p|][k..] == b[..|p| - k];
        assert EndsWith(a, (a + b)[..|p|][..k]);
        assert StartsWith(b, (a + b)[..|p|][k..]);
      }
    }
  }

  lemma {:induction false} OccurrencesAbsent(s: string, p: string, j: nat)
    requires j < |p| && Avoids(s, p[j])
    ensures Occurrences(s, p) == 0
  {
    if |s| >= |p| {
      assert s[..|p|][j] == s[j];
      OccurrencesAbsent(s[1..], p, j);
    }
  }

  lemma OccurrencesSelf(p: string)
    requires |p| > 0
    ensures Occurrences(p, p) == 1
  {
    assert p[..|p|] == p;
  }

  /** A sufficient condition for `NoStraddle`: the last character of `a` occurs nowhere in
      `p` before its last position. */
  lemma NoStraddleByLastChar(a: string, b: string, p: string)
    requires |a| > 0
    requires forall k :: 0 <= k < |p| - 1 ==> p[k] != a[|a| - 1]
    ensures NoStraddle(a, b, p)
  {
    forall k | 1 <= k < |p| ensures !EndsWith(a, p[..k]) {
      if k <= |a| {
        assert a[|a| - k..][k - 1] != p[..k][k - 1];
      }
    }
  }

  /** A sufficient condition for `NoStraddle`: the first character of `b` occurs nowhere in
      `p` after its first position. */
  lemma NoStraddleByFirstChar(a: string, b: string, p: string)
    requires |b| > 0
    requires forall k :: 1 <= k < |p| ==> p[k] != b[0]
    ensures NoStraddle(a, b, p)
  {
    forall k | 1 <= k < |p| ensures !StartsWith(b, p[k..]) {
      if |p| - k <= |b| {
        assert b[..|p| - k][0] != p[k..][0];
      }
    }
  }

  lemma NoStraddleIntoSelf(a: string, x: string, sep: string)
    requires Unbordered(sep)
    ensures NoStraddle(a, sep + x, sep)
  {
    forall k | 1 <= k < |sep| ensures !StartsWith(sep + x, sep[k..]) {
      assert (sep + x)[..|sep| - k] == sep[..|sep| - k];
    }
  }

  lemma NoStraddleOutOfSelf(sep: string, x: string)
    requires Unbordered(sep)
    ensures NoStraddle(sep, x, sep)
  {
    forall k | 1 <= k < |sep| ensures !EndsWith(sep, sep[..k]) {
      var j := |sep| - k;
      assert sep[j..] != sep[..|sep| - j];
    }
  }
}
