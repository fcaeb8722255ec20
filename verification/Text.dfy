/** What the console shows for text that is valid UTF-8, and when that is what was meant. */
module Text {
  import opened Unicode
  import opened Console
  import opened Sequences

  /** Code points that can be part of a C string. */
  ghost predicate AreScalars(cs: seq<bv32>) {
    forall i :: 0 <= i < |cs| ==> IsScalar(cs[i]) && cs[i] != 0
  }

  ghost predicate AreAccepted(cs: seq<bv32>) {
    forall i :: 0 <= i < |cs| ==> IsAccepted(cs[i])
  }

  function Encode8(cs: seq<bv32>): seq<bv8>
    requires AreScalars(cs)
  {
    if cs == [] then [] else Utf8(cs[0]) + Encode8(cs[1..])
  }

  function Encode16(cs: seq<bv32>): seq<bv16>
    requires AreScalars(cs)
  {
    if cs == [] then [] else Utf16(cs[0]) + Encode16(cs[1..])
  }

  function InsertCr(cs: seq<bv32>): (r: seq<bv32>)
    requires AreScalars(cs)
    ensures AreScalars(r)
  {
    if cs == [] then [] else (if cs[0] == 10 then [13, 10] else [cs[0]]) + InsertCr(cs[1..])
  }

  /** Section 2.2 of RFC 2781: reads words back as code points. */
  function Decode16(w: seq<bv16>): seq<bv32> {
    if w == [] then []
    else if |w| > 1 && IsHigh(w[0]) && IsLow(w[1]) then [Join16(w[0], w[1])] + Decode16(w[2..])
    else [w[0] as bv32] + Decode16(w[1..])
  }

  function Join16(high: bv16, low: bv16): bv32 {
    ((((high & 0x3ff) as bv32) << 10) | (low & 0x3ff) as bv32) + 0x10000
  }

  lemma PairBits(c: bv32)
    requires 0x10000 <= c <= 0x10ffff
    ensures var high, low := 0xd800 | ((c - 0x10000) >> 10) as bv16, 0xdc00 | ((c - 0x10000) & 0x3ff) as bv16;
            IsHigh(high) && IsLow(low) && Join16(high, low) == c
  {
  }

  lemma SingleBits(c: bv32)
    requires IsScalar(c) && c < 0x10000
    ensures !IsHigh(c as bv16) && (c as bv16) as bv32 == c
  {
  }

  lemma Decode16Step(c: bv32, rest: seq<bv16>)
    requires IsScalar(c)
    ensures Decode16(Utf16(c) + rest) == [c] + Decode16(rest)
  {
    hide IsScalar, IsHigh, IsLow, Join16;
    ScalarRange(c);
    var w := Utf16(c) + rest;
    if c < 0x10000 {
      SingleBits(c);
      assert w[1..] == rest;
    } else {
      PairBits(c);
      assert w[2..] == rest;
    }
  }

  /** UTF-16 text reads back as the code points it was made from. */
  lemma {:induction false} RoundTrip16(cs: seq<bv32>)
    requires AreScalars(cs)
    ensures Decode16(Encode16(cs)) == cs
  {
    if cs != [] {
      hide Utf16, IsScalar, Decode16;
      Decode16Step(cs[0], Encode16(cs[1..]));
      RoundTrip16(cs[1..]);
    } else {
      assert Encode16(cs) == [];
    }
  }

  lemma ScalarRange(c: bv32)
    requires IsScalar(c)
    ensures c <= 0x10ffff
    ensures !IsAccepted(c) ==> c >= 0x10000
  {
  }

  lemma DecodeAccepted(c: bv32, rest: seq<bv8>)
    requires IsScalar(c)
    ensures Step(Utf8(c) + rest) == if IsAccepted(c) then (c, |Utf8(c)|) else (Utf8(c)[0] as bv32, 1)
  {
    hide IsAccepted;
    var s := Utf8(c) + rest;
    ScalarRange(c);
    if c < 0x80 {
      forall d | Starts(s, d) ensures false { StartsForces(s, d); }
      SmallIsAccepted(c);
    } else if IsAccepted(c) {
      StepIs(s, c);
    } else {
      Split4(c);
      forall d | Starts(s, d) ensures false { StartsForces(s, d); }
    }
  }

  /** Decoding undoes encoding exactly for the scalars of plane 0 and, in the planes above, those
      whose low 16 bits are not a surrogate's; of any other scalar the first octet is taken on
      its own. */
  lemma DecodeEncode(c: bv32, rest: seq<bv8>)
    requires IsScalar(c)
    ensures Step(Utf8(c) + rest) == (c, |Utf8(c)|)
            <==> c < 0x1_0000 || c & 0xffff < 0xd800 || c & 0xffff > 0xdfff
    ensures Step(Utf8(c) + rest) == (c, |Utf8(c)|) || Step(Utf8(c) + rest) == (Utf8(c)[0] as bv32, 1)
  {
    hide *;
    DecodeAccepted(c, rest);
    AcceptedIs(c);
    RefusedIsLong(c);
  }

  lemma RefusedIsLong(c: bv32)
    requires IsScalar(c)
    ensures c <= 0x10ffff && (!IsAccepted(c) ==> |Utf8(c)| == 4)
  {
    ScalarRange(c);
  }

  lemma SmallIsAccepted(c: bv32)
    requires c < 0x80
    ensures IsAccepted(c)
  {
  }

  lemma Encode16Cons(c: bv32, cs: seq<bv32>)
    requires AreScalars(cs) && IsScalar(c) && c != 0
    ensures AreScalars([c] + cs) && Encode16([c] + cs) == Utf16(c) + Encode16(cs)
  {
    hide Utf16, IsScalar;
    assert ([c] + cs)[1..] == cs;
  }

  lemma NewlineUnfold(tail: seq<bv32>)
    requires AreScalars(tail)
    ensures AreScalars([13, 10] + tail) && Encode16([13, 10] + tail) == Emit(10) + Encode16(tail)
  {
    hide Utf16, IsScalar, Encode16;
    Controls();
    Encode16Cons(10, tail);
    Encode16Cons(13, [10] + tail);
    assert [13, 10] + tail == [13] + ([10] + tail);
    Regroup([CR], [LF], Encode16(tail), []);
  }

  lemma EncodeUnfold(cs: seq<bv32>)
    requires AreScalars(cs) && cs != []
    ensures Encode8(cs) == Utf8(cs[0]) + Encode8(cs[1..])
    ensures Encode16(InsertCr(cs)) == Emit(cs[0]) + Encode16(InsertCr(cs[1..]))
  {
    hide Utf8, Utf16, IsScalar, Encode16;
    if cs[0] == 10 {
      NewlineUnfold(InsertCr(cs[1..]));
    } else {
      Encode16Cons(cs[0], InsertCr(cs[1..]));
    }
  }

  lemma Controls()
    ensures IsScalar(13) && IsScalar(10) && Utf16(13) == [CR] && Utf16(10) == [LF]
  {
  }

  /** A code point the surrogate test rejects comes out as its raw lead octet. */
  lemma RejectedDiffers(c: bv32)
    requires IsScalar(c) && !IsAccepted(c)
    ensures Emit(c)[0] != Emit(Utf8(c)[0] as bv32)[0]
  {
  }

  lemma EmptyText()
    ensures Transcode(Encode8([]) + [0]) == Encode16(InsertCr([])) && AreAccepted([])
  {
  }

  lemma HeadTail(cs: seq<bv32>)
    requires AreScalars(cs) && cs != []
    ensures IsScalar(cs[0]) && cs[0] != 0 && cs[0] <= 0x10ffff && AreScalars(cs[1..])
    ensures AreAccepted(cs) <==> IsAccepted(cs[0]) && AreAccepted(cs[1..])
  {
    hide IsAccepted;
    assert cs == [cs[0]] + cs[1..];
  }

  lemma LeadNonZero(c: bv32)
    requires c <= 0x10ffff && c != 0
    ensures Utf8(c)[0] != 0
  {
  }

  lemma TranscodeHead(c: bv32, rest: seq<bv8>)
    requires IsScalar(c) && c != 0
    ensures IsAccepted(c) ==> Transcode(Utf8(c) + rest) == Emit(c) + Transcode(rest)
    ensures !IsAccepted(c) ==> Emit(Utf8(c)[0] as bv32) <= Transcode(Utf8(c) + rest)
  {
    hide Utf8, Step, IsAccepted, Emit;
    var s := Utf8(c) + rest;
    DecodeAccepted(c, rest);
    LeadNonZero(c);
    assert IsAccepted(c) ==> s[|Utf8(c)|..] == rest;
  }

  lemma {:induction false} ShownIfAccepted(cs: seq<bv32>)
    requires AreScalars(cs)
    ensures Transcode(Encode8(cs) + [0]) == Encode16(InsertCr(cs)) <==> AreAccepted(cs)
  {
    hide *;
    if cs == [] {
      EmptyText();
    } else {
      HeadTail(cs);
      var c, rest := cs[0], Encode8(cs[1..]) + [0];
      EncodeUnfold(cs);
      DecodeAccepted(c, rest);
      assert Encode8(cs) + [0] == Utf8(c) + rest;
      TranscodeHead(c, rest);
      if IsAccepted(c) {
        ShownIfAccepted(cs[1..]);
        Cancel(Emit(c), Transcode(rest), Encode16(InsertCr(cs[1..])));
      } else {
        RejectedDiffers(c);
        assert Encode16(InsertCr(cs))[0] == Emit(c)[0];
        assert Transcode(Utf8(c) + rest)[0] == Emit(Utf8(c)[0] as bv32)[0];
      }
    }
  }

  /** For every text without NUL: its UTF-8 form is shown as its UTF-16 form with a CR in front of
      every LF if, and only if, no character above plane 0 ends in the 16 bits of a surrogate. */
  lemma ShownAsMeant(cs: seq<bv32>)
    requires AreScalars(cs)
    ensures Transcode(Encode8(cs) + [0]) == Encode16(InsertCr(cs))
            <==> forall i :: 0 <= i < |cs| ==>
                   cs[i] < 0x1_0000 || cs[i] & 0xffff < 0xd800 || cs[i] & 0xffff > 0xdfff
  {
    hide Transcode, Encode8, Encode16, InsertCr, IsScalar, IsAccepted;
    ShownIfAccepted(cs);
    forall i | 0 <= i < |cs|
      ensures IsAccepted(cs[i]) <==> cs[i] < 0x1_0000 || cs[i] & 0xffff < 0xd800 || cs[i] & 0xffff > 0xdfff
    {
      AcceptedIs(cs[i]);
    }
  }

  /** U+1D800, a character of Sutton SignWriting, is not shown as itself. */
  lemma MaskedIsLost()
    ensures AreScalars([0x1d800]) && !AreAccepted([0x1d800])
    ensures Transcode(Encode8([0x1d800]) + [0]) != Encode16(InsertCr([0x1d800]))
  {
    var cs := [0x1d800];
    assert IsScalar(cs[0]) && cs[0] != 0 && !IsAccepted(cs[0]);
    hide *;
    ShownIfAccepted(cs);
  }
}
