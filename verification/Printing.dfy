/** The number printing of uefistub/console.c and uefistub/stub.c on top of the console. */
module Printing {
  import opened Bytes
  import opened Unicode
  import opened Console
  import opened Numerals
  import opened Sequences
  import opened CStrings
  import opened Convert

  function Octets(t: seq<CChar>): seq<bv8> { seq(|t|, i requires 0 <= i < |t| => Octet(t[i])) }

  /** The string a `char` pointer points to, with its terminator, as octets. */
  function Argument(s: seq<CChar>): (r: seq<bv8>)
    ensures r != [] && r[|r| - 1] == 0
  {
    Octets(Content(s) + [0])
  }

  predicate IsPlain(t: seq<CChar>) { forall i :: 0 <= i < |t| ==> 0 < t[i] && t[i] != 10 }

  /** The words that show a plain text: each has the code of its character. */
  ghost predicate Shows(w: seq<bv16>, t: seq<CChar>) {
    |w| == |t| && forall i :: 0 <= i < |t| ==> w[i] as int == t[i]
  }

  lemma RawWord(b: bv8)
    requires b < 0x80 && b != 10
    ensures Emit(b as bv32) == [b as bv16]
  {
  }

  lemma AsciiStep(s: seq<bv8>)
    requires s != [] && s[0] < 0x80
    ensures Step(s) == (s[0] as bv32, 1)
  {
    forall c | Starts(s, c) ensures false { StartsForces(s, c); }
  }

  lemma AsciiHead(s: seq<bv8>)
    requires s != [] && s[0] < 0x80 && s[0] != 0 && s[0] != 10
    ensures Transcode(s) == [s[0] as bv16] + Transcode(s[1..])
  {
    hide Step, Emit;
    AsciiStep(s);
    RawWord(s[0]);
  }

  lemma NothingShown(s: seq<bv8>)
    requires s != [] && s[0] == 0
    ensures Transcode(s) == []
  {
  }

  lemma OctetsUnfold(t: seq<CChar>)
    requires t != []
    ensures Octets(t) == [Octet(t[0])] + Octets(t[1..]) && Octet(0) == 0
  {
  }

  /** Plain text is shown character by character. */
  lemma {:induction false} PlainShown(t: seq<CChar>)
    requires IsPlain(t)
    ensures Shows(Transcode(Octets(t + [0])), t)
  {
    hide Octet, Octets, Transcode;
    var s := Octets(t + [0]);
    OctetsUnfold(t + [0]);
    if t == [] {
      NothingShown(s);
    } else {
      PlainOctet(t[0]);
      AsciiHead(s);
      WordCode(s[0]);
      assert (t + [0])[1..] == t[1..] + [0];
      PlainShown(t[1..]);
    }
  }

  lemma DigitsArePlain(n: nat, b: nat)
    requires 2 <= b <= 36
    ensures IsPlain(Text(n, b)) && 0 !in Text(n, b)
  {
    TextShape(n, b);
  }

  /** Shows a plain string that is in a buffer. */
  method PutsFrom(con: TextOutput, buf: array<CChar>, off: nat) returns (ghost out: seq<seq<bv16>>)
    requires off <= buf.Length && IsPlain(Content(buf[off..]))
    modifies con
    ensures con.shown == old(con.shown) + out
    ensures Shows(Flatten(out), old(Content(buf[off..])))
  {
    PlainShown(Content(buf[off..]));
    out := con.EfiPuts(Argument(buf[off..]));
  }

  method EfiPutd(con: TextOutput, value: nat) returns (ghost out: seq<seq<bv16>>)
    requires value < U64_LIMIT
    modifies con
    ensures con.shown == old(con.shown) + out
    ensures Shows(Flatten(out), Text(value, 10))
  {
    hide Filled, Text, Transcode, Flatten, Shows, Octets;
    var buf := new CChar[21];
    TextBounds(value);
    DigitsArePlain(value, 10);
    ghost var was := buf[..];
    var _ := U64ToStr(value, buf, 0, 10);
    FilledContent(was, 0, Text(value, 10));
    assert buf[0..] == buf[..];
    out := PutsFrom(con, buf, 0);
  }

  method EfiPuth(con: TextOutput, value: nat) returns (ghost out: seq<seq<bv16>>)
    requires value < U64_LIMIT
    modifies con
    ensures con.shown == old(con.shown) + out
    ensures Shows(Flatten(out), Text(value, 16))
  {
    hide Filled, Text, Transcode, Flatten, Shows, Octets;
    var buf := new CChar[17];
    TextBounds(value);
    DigitsArePlain(value, 16);
    ghost var was := buf[..];
    var _ := U64ToStr(value, buf, 0, 16);
    FilledContent(was, 0, Text(value, 16));
    assert buf[0..] == buf[..];
    out := PutsFrom(con, buf, 0);
  }

  /** A text with zeros in front up to a number of characters. */
  function ZeroPad(t: seq<CChar>, digits: nat): (r: seq<CChar>) {
    Zeros(if digits > |t| then digits - |t| else 0) + t
  }

  function Zeros(n: nat): (z: seq<CChar>) { Repeated('0' as int, n) }

  /** Padding keeps the value and gives the larger of the two lengths. */
  lemma ZeroPadMeaning(value: nat, b: nat, digits: nat)
    requires 2 <= b <= 36
    ensures |ZeroPad(Text(value, b), digits)| == if digits > |Text(value, b)| then digits else |Text(value, b)|
    ensures Parse(ZeroPad(Text(value, b), digits), b) == Some(value)
  {
    hide Text, Parse;
    TextRoundTrip(value, b);
    TextShape(value, b);
    ParseZeros(Text(value, b), b, digits);
  }

  lemma {:induction false} ParseZeros(t: seq<CChar>, b: nat, digits: nat)
    requires 2 <= b <= 36 && t != []
    ensures Parse(ZeroPad(t, digits), b) == Parse(t, b)
    decreases digits
  {
    hide Parse;
    if digits > |t| {
      ParseZeros(t, b, digits - 1);
      ParseZero(ZeroPad(t, digits - 1), b);
      assert ZeroPad(t, digits) == [48] + ZeroPad(t, digits - 1);
    } else {
      assert ZeroPad(t, digits) == t;
    }
  }

  lemma {:induction false} ParseZero(t: seq<CChar>, b: nat)
    requires 2 <= b <= 36 && t != []
    ensures Parse([48] + t, b) == Parse(t, b)
  {
    var k := |t| - 1;
    assert ([48] + t)[..|t|] == [48] + t[..k];
    if k > 0 {
      ParseZero(t[..k], b);
    } else {
      assert [48] + t[..0] == [48];
      assert Parse([48], b) == Some(0);
    }
  }

  lemma ZerosMirror(n: nat)
    ensures Reverse(Zeros(n)) == Zeros(n)
  {
    var z := Zeros(n);
    forall k | 0 <= k < n ensures Reverse(z)[k] == z[k] { ReverseAt(z, k); }
  }

  lemma ReversePlain(t: seq<CChar>)
    requires IsPlain(t)
    ensures IsPlain(Reverse(t)) && 0 !in Reverse(t)
  {
    forall k | 0 <= k < |t| ensures Reverse(t)[k] == t[|t| - 1 - k] { ReverseAt(t, k); }
  }

  lemma SeenAtFront(s: seq<CChar>, t: seq<CChar>, off: nat)
    requires off + |t| < |s| && |t| <= INT32_MAX && s[off..off + |t|] == t && s[off + |t|] == 0 && 0 !in t
    ensures 0 in s[off..] && Content(s[off..]) == t && Seen(s[off..]) == t
  {
    assert s[off..][..|t|] == t;
    UpToIs(s[off..], 0, |t|);
    assert s[off..][|t|] == 0;
  }

  /** The buffer after the conversion: the text is what the string functions see. */
  lemma Converted(was: seq<CChar>, s: seq<CChar>, t: seq<CChar>)
    requires |was| == 17 && |t| <= 16 && 0 !in t && s == Filled(was, 0, t + [0])
    ensures |s| == 17 && 0 in s[0..] && Seen(s[0..]) == t
  {
    hide Content, Seen;
    SeenAtFront(s, t, 0);
  }

  lemma FillerIsZeros(n: nat)
    ensures Repeated(ToChar('0' as int), n) == Zeros(n) && |Zeros(n)| == n && 0 !in Zeros(n)
  {
    assert ToChar(48) == 48;
  }

  lemma EndWith<T>(r: seq<T>, z: seq<T>, e: seq<T>, nul: T)
    requires |e| == 1
    ensures (r + z + e)[|r| + |z| := nul] == r + z + [nul]
  {
  }

  /** Turning the text round and putting zeros behind it, with a new terminator at the end. */
  lemma PaddedBehind(s: seq<CChar>, turned: seq<CChar>, filled: seq<CChar>, t: seq<CChar>)
    requires IsPlain(t) && |t| <= 16 && |s| == 17
    requires turned == Filled(s, 0, Reverse(t))
    requires |turned| == 17 && filled == Filled(turned, |t|, Repeated(ToChar('0' as int), 16 - |t|))
    ensures |filled| == 17
    ensures var p := filled[16 := 0]; 0 in p[0..] && Seen(p[0..]) == Reverse(t) + Zeros(16 - |t|)
  {
    hide Content, Seen, Reverse, Zeros, IsPlain, Filled, Repeated;
    ReversePlain(t);
    FillerIsZeros(16 - |t|);
    var r, z, e := Reverse(t), Zeros(16 - |t|), turned[16..];
    FilledIs(s, 0, r);
    FilledIs(turned, |t|, z);
    assert turned[..|t|] == r;
    EndWith(r, z, e, 0);
    SeenAtFront(r + z + [0], r + z, 0);
  }

  lemma PadIs(t: seq<CChar>, digits: nat, width: nat)
    requires IsPlain(t) && |t| <= 16 && digits <= 16 && width == if |t| > digits then |t| else digits
    ensures (Zeros(16 - |t|) + t + [0])[16 - width..16] == ZeroPad(t, digits)
    ensures |ZeroPad(t, digits)| == width && IsPlain(ZeroPad(t, digits)) && 0 !in ZeroPad(t, digits)
  {
  }

  lemma TurnedText(t: seq<CChar>, n: nat)
    ensures Reverse(Reverse(t) + Zeros(n)) == Zeros(n) + t
  {
    hide *;
    ReverseConcat(Reverse(t), Zeros(n));
    ReverseTwice(t);
    ZerosMirror(n);
  }

  /** Turning it all round again puts the zeros in front. */
  lemma TurnedBack(p: seq<CChar>, seen: seq<CChar>, s: seq<CChar>, t: seq<CChar>)
    requires |t| <= 16 && |p| == 17 && p[16] == 0 && seen == Reverse(t) + Zeros(16 - |t|)
    requires s == Filled(p, 0, Reverse(seen))
    ensures s == Zeros(16 - |t|) + t + [0]
  {
    hide *;
    TurnedText(t, 16 - |t|);
    FillerIsZeros(16 - |t|);
    WholeFill(p, Reverse(seen));
  }

  lemma WholeFill(p: seq<CChar>, u: seq<CChar>)
    requires |p| == |u| + 1 && p[|u|] == 0
    ensures Filled(p, 0, u) == u + [0]
  {
  }

  /** The text shown starts early enough for the width asked for. */
  lemma PaddedBefore(p: seq<CChar>, s: seq<CChar>, t: seq<CChar>, digits: nat, width: nat)
    requires IsPlain(t) && |t| <= 16 && digits <= 16 && |p| == 17 && p[16] == 0
    requires Seen(p[0..]) == Reverse(t) + Zeros(16 - |t|) && s == Filled(p, 0, Reverse(Seen(p[0..])))
    requires width == if |t| > digits then |t| else digits
    ensures |s| == 17 && Content(s[16 - width..]) == ZeroPad(t, digits) && IsPlain(ZeroPad(t, digits))
  {
    hide *;
    TurnedBack(p, Seen(p[0..]), s, t);
    ShownAtFront(s, t, digits, width);
  }

  lemma ShownAtFront(s: seq<CChar>, t: seq<CChar>, digits: nat, width: nat)
    requires IsPlain(t) && |t| <= 16 && digits <= 16 && s == Zeros(16 - |t|) + t + [0]
    requires width == if |t| > digits then |t| else digits
    ensures |s| == 17 && Content(s[16 - width..]) == ZeroPad(t, digits) && IsPlain(ZeroPad(t, digits))
  {
    hide *;
    FillerIsZeros(16 - |t|);
    PadIs(t, digits, width);
    SeenFits();
    SeenAtFront(s, ZeroPad(t, digits), 16 - width);
  }

  lemma SeenFits()
    ensures 16 <= INT32_MAX
  {
  }

  /** Shows at least `digits` hexadecimal digits.  The digits are turned round in place, zeros
      are put over the old terminator, and all of it is turned round again. */
  method EfiPut0h(con: TextOutput, value: nat, digits: nat) returns (ghost out: seq<seq<bv16>>)
    requires value < U64_LIMIT && digits <= 16
    modifies con
    ensures con.shown == old(con.shown) + out
    ensures Shows(Flatten(out), ZeroPad(Text(value, 16), digits))
  {
    hide *;
    var buf := new CChar[17];
    ghost var t, was := Text(value, 16), buf[..];
    HexText(value);
    var n := U64ToStr(value, buf, 0, 16);
    ghost var converted := buf[..];
    Converted(was, converted, t);
    assert buf[0..] == converted[0..];
    Strrev(buf, 0);
    ghost var turned := buf[..];
    var _ := Memset(buf, n, '0' as int, 16 - n);
    ghost var filled := buf[..];
    PaddedBehind(converted, turned, filled, t);
    buf[16] := 0;
    ghost var padded := buf[..];
    assert padded == filled[16 := 0] && buf[0..] == padded[0..];
    Strrev(buf, 0);
    var width := digits;
    if n > width {
      width := n;
    }
    PaddedBefore(padded, buf[..], t, digits, width);
    assert buf[16 - width..] == buf[..][16 - width..];
    out := PutsFrom(con, buf, 16 - width);
  }

  lemma HexText(value: nat)
    requires value < U64_LIMIT
    ensures U64Text(value, 16) == Text(value, 16)
    ensures |Text(value, 16)| <= 16 && IsPlain(Text(value, 16)) && 0 !in Text(value, 16)
  {
    TextBounds(value);
    DigitsArePlain(value, 16);
  }
}
