/** utils/string.c: string functions over buffers.  A pointer is an array and an offset. */
module CStrings {
  import opened Numerals
  import opened Sequences

  const INT32_MAX := 0x7fff_ffff

  function Min(a: nat, b: nat): nat { if a < b then a else b }

  /** The string a pointer points to. */
  function Content(s: seq<CChar>): seq<CChar> { UpTo(s, 0) }

  /** Reading at most `n` characters stays inside the buffer. */
  predicate IsReadable(s: seq<CChar>, n: nat) { n <= |s| || 0 in s }

  lemma WholeIsReadable(s: seq<CChar>)
    ensures IsReadable(s, |s|)
  {
  }

  function Reverse(s: seq<CChar>): (r: seq<CChar>)
    ensures |r| == |s|
  {
    if s == [] then [] else Reverse(s[1..]) + [s[0]]
  }

  lemma {:induction false} ReverseAt(s: seq<CChar>, k: nat)
    requires k < |s|
    ensures Reverse(s)[k] == s[|s| - 1 - k]
  {
    if k < |s| - 1 {
      ReverseAt(s[1..], k);
    }
  }

  /** Reversing twice gives the string back. */
  lemma ReverseTwice(s: seq<CChar>)
    ensures Reverse(Reverse(s)) == s
  {
    forall k | 0 <= k < |s| ensures Reverse(Reverse(s))[k] == s[k] {
      ReverseAt(Reverse(s), k);
      ReverseAt(s, |s| - 1 - k);
    }
  }

  lemma ReverseConcat(s: seq<CChar>, t: seq<CChar>)
    ensures Reverse(s + t) == Reverse(t) + Reverse(s)
  {
    forall k | 0 <= k < |s| + |t| ensures Reverse(s + t)[k] == (Reverse(t) + Reverse(s))[k] {
      ReverseAt(s + t, k);
      if k < |t| { ReverseAt(t, k); } else { ReverseAt(s, k - |t|); }
    }
  }

  /** A buffer with a text written into it from `off`, everything else as it was. */
  function Filled(was: seq<CChar>, off: nat, t: seq<CChar>): seq<CChar>
    requires off + |t| <= |was|
  {
    was[..off] + t + was[off + |t|..]
  }

  lemma FilledStart(was: seq<CChar>, off: nat)
    requires off <= |was|
    ensures Filled(was, off, []) == was
  {
  }

  lemma FilledNext(was: seq<CChar>, off: nat, t: seq<CChar>, c: CChar, now: seq<CChar>)
    requires off + |t| < |was| && now == Filled(was, off, t)
    ensures |now| == |was| && now[off + |t| := c] == Filled(was, off, t + [c])
  {
  }

  /** Text that is there already need not be written. */
  lemma FilledAfter(was: seq<CChar>, off: nat, t: seq<CChar>, u: seq<CChar>)
    requires off + |t| + |u| <= |was| && was[off..off + |t|] == t
    ensures Filled(was, off + |t|, u) == Filled(was, off, t + u)
  {
    assert was[..off + |t|] == was[..off] + t;
  }

  lemma FilledIs(was: seq<CChar>, off: nat, t: seq<CChar>)
    requires off + |t| <= |was|
    ensures Filled(was, off, t) == was[..off] + t + was[off + |t|..]
  {
  }

  function Repeated(c: CChar, n: nat): (t: seq<CChar>)
    ensures |t| == n
  {
    seq(n, _ => c)
  }

  lemma RepeatedNext(c: CChar, n: nat)
    ensures Repeated(c, 0) == [] && Repeated(c, n) + [c] == Repeated(c, n + 1)
  {
  }

  /** The signed view of an octet. */
  function ToChar(c: int): CChar {
    if c % 256 < 128 then c % 256 else c % 256 - 256
  }

  /** In numbers: the `char` that is congruent to the argument modulo 256. */
  lemma ToCharIs(c: int)
    ensures -128 <= ToChar(c) <= 127 && (c - ToChar(c)) % 256 == 0
  {
  }

  method Memset(s: array<CChar>, off: nat, c: int, n: nat) returns (r: nat)
    requires off + n <= s.Length
    modifies s
    ensures r == off
    ensures s[..] == Filled(old(s[..]), off, Repeated(ToChar(c), n))
  {
    hide *;
    ghost var was := s[..];
    FilledStart(was, off);
    RepeatedNext(ToChar(c), 0);
    var v := ToChar(c);
    var p, left := off, n;
    while left > 0
      invariant 0 <= left <= n && p + left == off + n
      invariant s[..] == Filled(was, off, Repeated(v, n - left))
    {
      ghost var k, now := n - left, s[..];
      RepeatedNext(v, k);
      FilledNext(was, off, Repeated(v, k), v, now);
      left := left - 1;
      s[p] := v;
      assert s[..] == now[off + k := v];
      p := p + 1;
    }
    r := off;
  }

  /** The two areas must not overlap. */
  method Mempcpy(dst: array<CChar>, d: nat, src: array<CChar>, s: nat, n: nat) returns (r: nat)
    requires d + n <= dst.Length && s + n <= src.Length
    requires dst != src || d + n <= s || s + n <= d
    modifies dst
    ensures r == d + n
    ensures dst[..] == Filled(old(dst[..]), d, old(src[..])[s..s + n])
  {
    hide *;
    ghost var was, from := dst[..], src[s..s + n];
    FilledStart(was, d);
    var pdst, psrc, left := d, s, n;
    while left > 0
      invariant 0 <= left <= n && pdst + left == d + n && psrc + left == s + n
      invariant dst[..] == Filled(was, d, from[..n - left])
      invariant src[s..s + n] == from
    {
      ghost var k, now := n - left, dst[..];
      FilledNext(was, d, from[..k], from[k], now);
      assert src[psrc] == from[k] && from[..k] + [from[k]] == from[..k + 1];
      left := left - 1;
      dst[pdst] := src[psrc];
      assert dst[..] == now[d + k := from[k]];
      pdst, psrc := pdst + 1, psrc + 1;
    }
    r := pdst;
    assert from[..n] == from == old(src[..])[s..s + n];
  }

  method Strnlen(str: array<CChar>, off: nat, n: nat) returns (len: nat)
    requires off <= str.Length && IsReadable(str[off..], n)
    ensures len == Min(|Content(str[off..])|, n)
  {
    len := 0;
    var left := n;
    ghost var s := str[off..];
    while left > 0
      invariant len + left == n && len <= |Content(s)|
    {
      left := left - 1;
      assert len == |Content(s)| ==> len < |s|;
      assert len < |Content(s)| ==> Content(s)[len] == str[off + len];
      if str[off + len] == 0 {
        return;
      }
      len := len + 1;
    }
  }

  method Strlen(str: array<CChar>, off: nat) returns (len: nat)
    requires off <= str.Length && 0 in str[off..]
    ensures len == Min(|Content(str[off..])|, INT32_MAX)
    ensures len == if |Content(str[off..])| <= 0x7fff_ffff then |Content(str[off..])| else 0x7fff_ffff
  {
    len := Strnlen(str, off, INT32_MAX);
  }

  /** What `strlen` lets a string function see of a string. */
  function Seen(s: seq<CChar>): seq<CChar> {
    Content(s)[..Min(|Content(s)|, INT32_MAX)]
  }

  method Stpcpy(dst: array<CChar>, d: nat, src: array<CChar>, s: nat) returns (p: nat)
    requires s <= src.Length && 0 in src[s..]
    requires d + |Seen(src[s..])| < dst.Length
    requires dst != src || d + |Seen(src[s..])| < s || s + |Content(src[s..])| < d
    modifies dst
    ensures p == d + |Seen(old(src[..])[s..])|
    ensures dst[..] == Filled(old(dst[..]), d, Seen(old(src[..])[s..]) + [0])
  {
    hide *;
    ghost var was, seen := dst[..], Seen(src[..][s..]);
    SeenSlice(src[..], s);
    assert src[s..] == src[..][s..];
    var len := Strlen(src, s);
    p := Mempcpy(dst, d, src, s, len);
    ghost var now := dst[..];
    FilledNext(was, d, seen, 0, now);
    dst[p] := 0;
    assert dst[..] == now[p := 0];
  }

  /** `strcat` replaces the terminator of `dst` and what follows it by `src`, as far as
      `strlen` sees the two strings, and leaves every other character alone. */
  method Strcat(dst: array<CChar>, d: nat, src: array<CChar>, s: nat)
    requires d <= dst.Length && 0 in dst[d..] && s <= src.Length && 0 in src[s..]
    requires d + |Seen(dst[d..])| + |Seen(src[s..])| < dst.Length
    requires dst != src
             || d + |Seen(dst[d..])| + |Seen(src[s..])| < s
             || s + |Content(src[s..])| < d
    modifies dst
    ensures dst[..] == Filled(old(dst[..]), d, Seen(old(dst[..])[d..]) + (Seen(old(src[..])[s..]) + [0]))
  {
    hide *;
    ghost var was := dst[..];
    ghost var x, y := Seen(was[d..]), Seen(src[..][s..]);
    SeenSlice(was, d);
    assert dst[d..] == was[d..] && src[s..] == src[..][s..];
    var len := Strlen(dst, d);
    FilledAfter(was, d, x, y + [0]);
    var _ := Stpcpy(dst, d + len, src, s);
  }

  lemma SeenSlice(s: seq<CChar>, off: nat)
    requires off <= |s|
    ensures off + |Seen(s[off..])| <= |s| && s[off..off + |Seen(s[off..])|] == Seen(s[off..])
    ensures |Seen(s[off..])| == Min(|Content(s[off..])|, INT32_MAX) <= |Content(s[off..])|
  {
  }

  lemma SeenNul(s: seq<CChar>)
    ensures 0 !in Seen(s) && 0 !in Content(s)
  {
  }

  /** The string `strcat` leaves is the concatenation of the two strings exactly when neither
      is too long for `strlen`. */
  lemma StrcatMeaning(x: seq<CChar>, y: seq<CChar>, rest: seq<CChar>)
    ensures Content(Seen(x) + (Seen(y) + [0]) + rest) == Content(x) + Content(y)
            <==> |Content(x)| <= 0x7fff_ffff && |Content(y)| <= 0x7fff_ffff
  {
    var xy := Seen(x) + Seen(y);
    var w := Seen(x) + (Seen(y) + [0]) + rest;
    assert w == xy + [0] + rest;
    SeenNul(x);
    SeenNul(y);
    assert w[..|xy|] == xy;
    UpToIs(w, 0, |xy|);
  }

  /** A string of 2^31 characters loses its last one to `strcat`, whatever is appended. */
  lemma LongIsCut(y: seq<CChar>, rest: seq<CChar>)
    ensures var x := seq(0x8000_0000, _ => 'a' as int) + [0];
            |Content(x)| == 0x8000_0000
            && Content(Seen(x) + (Seen(y) + [0]) + rest) != Content(x) + Content(y)
  {
    var body := seq(0x8000_0000, _ => 'a' as int);
    var x := body + [0];
    assert x[..|body|] == body && x[|body|] == 0;
    UpToIs(x, 0, |body|);
    hide Content, Seen;
    StrcatMeaning(x, y, rest);
  }

  /** The first place where two strings differ or both end decides, unless `n` comes first. */
  function Compare(s: seq<CChar>, t: seq<CChar>, n: nat): int
    requires IsReadable(s, n) && IsReadable(t, n)
  {
    if n == 0 then 0
    else if s[0] != t[0] || s[0] == 0 then s[0] - t[0]
    else Compare(s[1..], t[1..], n - 1)
  }

  lemma CompareUnfold(s: seq<CChar>, t: seq<CChar>, n: nat)
    requires IsReadable(s, n) && IsReadable(t, n)
    ensures n == 0 ==> Compare(s, t, n) == 0
    ensures n > 0 ==>
      && s != [] && t != []
      && if s[0] != t[0] || s[0] == 0 then Compare(s, t, n) == s[0] as int - t[0] as int
         else IsReadable(s[1..], n - 1) && IsReadable(t[1..], n - 1)
              && Compare(s, t, n) == Compare(s[1..], t[1..], n - 1)
  {
  }

  /** One round of the loop of `strncmp` at position `i`. */
  lemma CompareRound(s: seq<CChar>, t: seq<CChar>, n: nat, i: nat)
    requires i < n && i <= |s| && i <= |t| && IsReadable(s[i..], n - i) && IsReadable(t[i..], n - i)
    ensures i < |s| && i < |t|
    ensures if s[i] != t[i] || s[i] == 0 then Compare(s[i..], t[i..], n - i) == s[i] as int - t[i] as int
            else IsReadable(s[i + 1..], n - i - 1) && IsReadable(t[i + 1..], n - i - 1)
                 && Compare(s[i..], t[i..], n - i) == Compare(s[i + 1..], t[i + 1..], n - i - 1)
  {
    hide *;
    CompareUnfold(s[i..], t[i..], n - i);
    assert s[i..][1..] == s[i + 1..] && t[i..][1..] == t[i + 1..];
  }

  method Strncmp(str1: array<CChar>, o1: nat, str2: array<CChar>, o2: nat, size: nat) returns (r: int)
    requires o1 <= str1.Length && IsReadable(str1[o1..], size)
    requires o2 <= str2.Length && IsReadable(str2[o2..], size)
    ensures r == Compare(str1[o1..], str2[o2..], size)
  {
    hide *;
    ghost var s, t := str1[o1..], str2[o2..];
    var i := 0;
    var c1: CChar, c2: CChar := 0, 0;
    assert s[0..] == s && t[0..] == t;
    while i < size
      invariant i <= size && i <= |s| && i <= |t| && c1 == c2
      invariant IsReadable(s[i..], size - i) && IsReadable(t[i..], size - i)
      invariant Compare(s, t, size) == Compare(s[i..], t[i..], size - i)
    {
      CompareRound(s, t, size, i);
      c1 := str1[o1 + i];
      c2 := str2[o2 + i];
      if c1 != c2 {
        break;
      } else if c1 == 0 {
        break;
      } else if c2 == 0 {
        break;
      }
      i := i + 1;
    }
    if i == size {
      CompareUnfold(s[i..], t[i..], 0);
    }
    r := c1 - c2;
  }

  /** The first `n` characters of the string, which is all `strncmp` looks at. */
  function Prefix(s: seq<CChar>, n: nat): seq<CChar> {
    Content(s)[..Min(|Content(s)|, n)]
  }

  /** `strncmp` is 0 exactly on strings that agree up to NUL or up to the limit. */
  lemma {:induction false} CompareZero(s: seq<CChar>, t: seq<CChar>, n: nat)
    requires IsReadable(s, n) && IsReadable(t, n)
    ensures Compare(s, t, n) == 0 <==> Prefix(s, n) == Prefix(t, n)
  {
    hide *;
    CompareUnfold(s, t, n);
    if n == 0 {
      PrefixNone(s);
      PrefixNone(t);
    } else {
      PrefixUnfold(s, n);
      PrefixUnfold(t, n);
      if s[0] == t[0] && s[0] != 0 {
        CompareZero(s[1..], t[1..], n - 1);
        Cancel([s[0]], Prefix(s[1..], n - 1), Prefix(t[1..], n - 1));
      } else if s[0] != 0 && t[0] != 0 {
        assert Prefix(s, n)[0] == s[0] && Prefix(t, n)[0] == t[0];
      }
    }
  }

  lemma PrefixNone(s: seq<CChar>)
    ensures Prefix(s, 0) == []
  {
  }

  lemma PrefixUnfold(s: seq<CChar>, n: nat)
    requires n > 0 && IsReadable(s, n)
    ensures s != []
    ensures Prefix(s, n) == if s[0] == 0 then [] else [s[0]] + Prefix(s[1..], n - 1)
  {
  }

  /** `strncmp` is antisymmetric. */
  lemma {:induction false} CompareSwap(s: seq<CChar>, t: seq<CChar>, n: nat)
    requires IsReadable(s, n) && IsReadable(t, n)
    ensures Compare(t, s, n) == -Compare(s, t, n)
  {
    if n > 0 && s[0] == t[0] && s[0] != 0 {
      CompareSwap(s[1..], t[1..], n - 1);
    }
  }

  /** `strncmp` is transitive, so with the above a total preorder. */
  lemma {:induction false} CompareTransitive(s: seq<CChar>, t: seq<CChar>, u: seq<CChar>, n: nat)
    requires IsReadable(s, n) && IsReadable(t, n) && IsReadable(u, n)
    requires Compare(s, t, n) <= 0 && Compare(t, u, n) <= 0
    ensures Compare(s, u, n) <= 0
    ensures Compare(s, u, n) == 0 ==> Compare(s, t, n) == 0 && Compare(t, u, n) == 0
  {
    if n > 0 && s[0] == t[0] && s[0] != 0 && t[0] == u[0] {
      CompareTransitive(s[1..], t[1..], u[1..], n - 1);
    }
  }

  /** A buffer with the outer `i` characters of each end of a stretch exchanged. */
  function Mirrored(was: seq<CChar>, off: nat, n: nat, i: nat): (r: seq<CChar>)
    requires off + n <= |was| && 2 * i <= n + 1
  {
    seq(|was|, k requires 0 <= k < |was| =>
      if off <= k < off + i || off + n - i <= k < off + n then was[2 * off + n - 1 - k] else was[k])
  }

  lemma MirrorStep(was: seq<CChar>, off: nat, n: nat, i: nat)
    requires off + n <= |was| && 2 * i < n
    ensures var x := Mirrored(was, off, n, i);
            x[off + i := x[off + n - i - 1]][off + n - i - 1 := x[off + i]] == Mirrored(was, off, n, i + 1)
  {
  }

  lemma MirrorAll(was: seq<CChar>, off: nat, n: nat, i: nat)
    requires off + n <= |was| && n <= 2 * i <= n + 1
    ensures Mirrored(was, off, n, i) == Filled(was, off, Reverse(was[off..off + n]))
  {
    var mid := was[off..off + n];
    var turned := was[..off] + Reverse(mid) + was[off + n..];
    forall k | 0 <= k < |was| ensures Mirrored(was, off, n, i)[k] == turned[k] {
      if off <= k < off + n { ReverseAt(mid, k - off); }
    }
  }

  method Strnrev(str: array<CChar>, off: nat, n: nat)
    requires off + n <= str.Length
    modifies str
    ensures str[..] == Filled(old(str[..]), off, Reverse(old(str[..])[off..off + n]))
  {
    ghost var was := str[..];
    var i, m := 0, n;
    while i < m
      invariant m == n - i && i <= m + 1
      invariant str[..] == Mirrored(was, off, n, i)
    {
      MirrorStep(was, off, n, i);
      ghost var x := str[..];
      var tmp := str[off + i];
      str[off + i] := str[off + m - 1];
      str[off + m - 1] := tmp;
      assert str[..] == x[off + i := x[off + m - 1]][off + m - 1 := x[off + i]];
      i := i + 1;
      m := m - 1;
    }
    MirrorAll(was, off, n, i);
  }

  method Strrev(str: array<CChar>, off: nat)
    requires off <= str.Length && 0 in str[off..]
    modifies str
    ensures str[..] == Filled(old(str[..]), off, Reverse(Seen(old(str[..])[off..])))
  {
    hide *;
    SeenSlice(str[..], off);
    assert str[off..] == str[..][off..];
    var len := Strlen(str, off);
    Strnrev(str, off, len);
  }
}
