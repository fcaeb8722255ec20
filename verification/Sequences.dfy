/** NUL-terminated buffers, of `char` and of 16-bit words alike, and laws of concatenation. */
module Sequences {
  /** The elements of a buffer before its first terminator. */
  function UpTo<T(==)>(s: seq<T>, nul: T): (r: seq<T>)
    ensures |r| <= |s| && r == s[..|r|] && nul !in r
    ensures |r| < |s| ==> s[|r|] == nul
  {
    if s == [] || s[0] == nul then [] else [s[0]] + UpTo(s[1..], nul)
  }

  /** The first terminator is the only one with none before it. */
  lemma {:induction false} UpToIs<T>(s: seq<T>, nul: T, n: nat)
    requires n < |s| && s[n] == nul && nul !in s[..n]
    ensures UpTo(s, nul) == s[..n]
  {
    if n > 0 {
      assert s[..n] == [s[0]] + s[1..][..n - 1];
      UpToIs(s[1..], nul, n - 1);
    }
  }

  lemma Associates<T>(a: seq<T>, b: seq<T>, c: seq<T>)
    ensures a + b + c == a + (b + c) && a + [] == a == [] + a
  {
  }

  lemma Regroup<T>(a: seq<T>, b: seq<T>, c: seq<T>, d: seq<T>)
    ensures a + b + (c + d) == a + (b + c) + d
    ensures a + b + d == (a + b) + [] + d
    ensures [] + [] + d == d && a + [] + [] == a
  {
  }

  lemma Cancel<T>(a: seq<T>, b: seq<T>, c: seq<T>)
    ensures a + b == a + c <==> b == c
  {
    assert (a + b)[|a|..] == b && (a + c)[|a|..] == c;
  }

  lemma SliceConcat<T>(s: seq<T>, i: nat, a: seq<T>, b: seq<T>)
    requires i + |a| + |b| <= |s| && s[i..i + |a| + |b|] == a + b
    ensures s[i..i + |a|] == a && s[i + |a|..i + |a| + |b|] == b
  {
    var ab := s[i..i + |a| + |b|];
    assert s[i..i + |a|] == ab[..|a|] && s[i + |a|..i + |a| + |b|] == ab[|a|..];
  }
}
