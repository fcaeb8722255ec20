/** uefistub/gop.c: channel masks and pixel depth. */
module Masks {
  function Half(x: bv32): bv32 { x >> 1 }

  predicate IsOdd(x: bv32) { x & 1 == 1 }

  function Union(a: bv32, b: bv32): bv32 { a | b }

  predicate AreDisjoint(a: bv32, b: bv32) { a & b == 0 }

  /** The number of bits up to the highest set bit. */
  function Length(x: bv32): nat
    decreases x
  {
    if x == 0 then 0 else (HalfSmaller(x); 1 + Length(Half(x)))
  }

  /** `__fls`: the position of the highest set bit. */
  function Fls(x: bv32): (p: nat)
    requires x != 0
  {
    LengthUnfold(x);
    Length(x) - 1
  }

  /** `__ffs`: the position of the lowest set bit. */
  function Ffs(x: bv32): nat
    requires x != 0
    decreases x
  {
    if IsOdd(x) then 0 else (HalfSmaller(x); EvenHalf(x); 1 + Ffs(Half(x)))
  }

  function PopCount(x: bv32): nat
    decreases x
  {
    if x == 0 then 0 else (HalfSmaller(x); (if IsOdd(x) then 1 else 0) + PopCount(Half(x)))
  }

  function Twice(x: bv32): bv32 { x << 1 }

  function TwiceAndOne(x: bv32): bv32 { (x << 1) | 1 }

  /** `s` one bits, and a word moved `p` bits up. */
  function Ones(s: nat): bv32 { if s == 0 then 0 else TwiceAndOne(Ones(s - 1)) }

  function Moved(x: bv32, p: nat): bv32 { if p == 0 then x else Twice(Moved(x, p - 1)) }

  /** The set bits of the word are neighbours: filling up below them and adding one clears them. */
  predicate IsContiguous(x: bv32) { x != 0 && ((x | (x - 1)) + 1) & x == 0 }

  predicate AllOnes(x: bv32) { x & (x + 1) == 0 }

  lemma HalfSmaller(x: bv32)
    requires x != 0
    ensures Half(x) < x
  {
  }

  lemma LengthUnfold(x: bv32)
    ensures x != 0 ==> Length(x) == 1 + Length(Half(x))
    ensures Length(x) <= 1 + Length(Half(x)) && Length(0) == 0
  {
    hide Half;
  }

  lemma {:induction false} FourMore(x: bv32)
    ensures Length(x) <= 4 + Length(Half(Half(Half(Half(x)))))
  {
    hide Half, Length;
    LengthUnfold(x);
    LengthUnfold(Half(x));
    LengthUnfold(Half(Half(x)));
    LengthUnfold(Half(Half(Half(x))));
  }

  function Shr4(x: bv32): bv32 { x >> 4 }

  lemma Shr4Is(x: bv32)
    ensures Half(Half(Half(Half(x)))) == Shr4(x)
  {
  }

  lemma AllGone(x: bv32)
    ensures Shr4(Shr4(Shr4(Shr4(Shr4(Shr4(Shr4(Shr4(x)))))))) == 0
  {
  }

  lemma SixteenMore(x: bv32)
    ensures Length(x) <= 16 + Length(Shr4(Shr4(Shr4(Shr4(x)))))
  {
    hide *;
    FourMore(x);
    Shr4Is(x);
    FourMore(Shr4(x));
    Shr4Is(Shr4(x));
    FourMore(Shr4(Shr4(x)));
    Shr4Is(Shr4(Shr4(x)));
    FourMore(Shr4(Shr4(Shr4(x))));
    Shr4Is(Shr4(Shr4(Shr4(x))));
  }

  lemma LengthBound(x: bv32)
    ensures Length(x) <= 32
  {
    hide *;
    LengthUnfold(0);
    SixteenMore(x);
    SixteenMore(Shr4(Shr4(Shr4(Shr4(x)))));
    AllGone(x);
  }

  lemma DisjointHalves(a: bv32, b: bv32)
    requires AreDisjoint(a, b)
    ensures AreDisjoint(Half(a), Half(b))
    ensures !(IsOdd(a) && IsOdd(b))
  {
  }

  lemma UnionHalf(a: bv32, b: bv32)
    ensures Half(Union(a, b)) == Union(Half(a), Half(b))
  {
  }

  lemma UnionOdd(a: bv32, b: bv32)
    ensures IsOdd(Union(a, b)) <==> IsOdd(a) || IsOdd(b)
  {
  }

  lemma UnionZero(a: bv32, b: bv32)
    ensures Union(a, b) == 0 <==> a == 0 && b == 0
  {
  }

  lemma PopUnfold(x: bv32)
    ensures PopCount(x) == (if IsOdd(x) then 1 else 0) + PopCount(Half(x))
    ensures PopCount(0) == 0
  {
  }

  /** The bits of words that share none are counted separately. */
  lemma {:induction false} PopUnion(a: bv32, b: bv32)
    requires AreDisjoint(a, b)
    ensures PopCount(Union(a, b)) == PopCount(a) + PopCount(b)
    decreases Length(Union(a, b))
  {
    hide *;
    UnionHalf(a, b);
    UnionOdd(a, b);
    UnionZero(a, b);
    PopUnfold(a);
    if Union(a, b) != 0 {
      DisjointHalves(a, b);
      PopUnfold(b);
      PopUnfold(Union(a, b));
      LengthUnfold(Union(a, b));
      PopUnion(Half(a), Half(b));
    }
  }

  lemma OddOnes(x: bv32)
    requires IsOdd(x) && AllOnes(Half(x))
    ensures AllOnes(x)
  {
  }

  lemma OnesHalf(x: bv32)
    requires IsOdd(x) && AllOnes(x)
    ensures AllOnes(Half(x)) && IsContiguous(x)
  {
  }

  lemma OddContiguous(x: bv32)
    requires IsOdd(x) && IsContiguous(x)
    ensures AllOnes(x)
  {
  }

  lemma OddIs(x: bv32)
    requires IsOdd(x)
    ensures x == TwiceAndOne(Half(x)) && x != 0
  {
  }

  lemma EvenHalf(x: bv32)
    requires !IsOdd(x) && x != 0
    ensures x == Twice(Half(x)) && Half(x) != 0
  {
  }

  lemma EvenOnes(x: bv32)
    requires !IsOdd(x) && x != 0
    ensures !AllOnes(x)
  {
  }

  lemma EvenContiguous(x: bv32)
    requires !IsOdd(x) && x != 0
    ensures IsContiguous(x) ==> IsContiguous(Half(x))
  {
  }

  lemma ContiguousDouble(x: bv32)
    requires !IsOdd(x) && x != 0
    ensures IsContiguous(Half(x)) ==> IsContiguous(x)
  {
  }

  lemma OnesUnfold(s: nat)
    ensures Ones(0) == 0 && Ones(s + 1) == TwiceAndOne(Ones(s))
  {
  }

  lemma ZeroOnes()
    ensures AllOnes(0)
  {
  }

  /** A word has as many set bits as it is long just if it is all ones. */
  lemma {:induction false} PopLength(x: bv32)
    ensures PopCount(x) <= Length(x)
    ensures PopCount(x) == Length(x) <==> AllOnes(x)
    decreases Length(x)
  {
    hide *;
    PopUnfold(x);
    LengthUnfold(x);
    if x == 0 {
      ZeroOnes();
    } else {
      PopLength(Half(x));
      if IsOdd(x) {
        if AllOnes(x) { OnesHalf(x); }
        if AllOnes(Half(x)) { OddOnes(x); }
      } else {
        EvenOnes(x);
      }
    }
  }

  lemma {:induction false} AllOnesIs(x: bv32)
    requires AllOnes(x)
    ensures x == Ones(Length(x))
    decreases Length(x)
  {
    hide *;
    LengthUnfold(x);
    OnesUnfold(Length(Half(x)));
    if x != 0 {
      if !IsOdd(x) { EvenOnes(x); }
      OddIs(x);
      OnesHalf(x);
      AllOnesIs(Half(x));
    }
  }

  /** From the lowest to the highest set bit. */
  function Span(x: bv32): nat
    requires x != 0
  {
    FfsBelow(x);
    Fls(x) - Ffs(x) + 1
  }

  lemma {:induction false} FfsBelow(x: bv32)
    requires x != 0
    ensures Ffs(x) < Length(x)
    decreases Length(x)
  {
    hide Half, IsOdd;
    LengthUnfold(x);
    if !IsOdd(x) {
      EvenHalf(x);
      FfsBelow(Half(x));
    }
  }

  lemma SpanUnfold(x: bv32)
    requires x != 0
    ensures Span(x) == Length(x) - Ffs(x)
    ensures IsOdd(x) ==> Ffs(x) == 0
    ensures !IsOdd(x) ==> Half(x) != 0 && Ffs(x) == 1 + Ffs(Half(x)) && Span(x) == Span(Half(x))
  {
    hide Half, IsOdd, Length;
    LengthUnfold(x);
    if !IsOdd(x) { EvenHalf(x); }
  }

  /** The span is the number of set bits just if the bits are contiguous. */
  lemma {:induction false} SpanIsCount(x: bv32)
    requires x != 0
    ensures PopCount(x) <= Span(x) && Ffs(x) + Span(x) <= 32
    ensures PopCount(x) == Span(x) <==> IsContiguous(x)
    decreases Length(x)
  {
    hide *;
    LengthBound(x);
    LengthUnfold(x);
    SpanUnfold(x);
    PopUnfold(x);
    if IsOdd(x) {
      PopLength(x);
      if AllOnes(x) { OnesHalf(x); }
      if IsContiguous(x) { OddContiguous(x); }
    } else {
      EvenContiguous(x);
      ContiguousDouble(x);
      SpanIsCount(Half(x));
    }
  }

  lemma MovedUnfold(x: bv32, p: nat)
    ensures Moved(x, 0) == x && Moved(x, p + 1) == Twice(Moved(x, p))
  {
  }

  /** A contiguous word is that many ones, moved up to its lowest set bit. */
  lemma {:induction false} ContiguousIs(x: bv32)
    requires x != 0 && IsContiguous(x)
    ensures x == Moved(Ones(Span(x)), Ffs(x))
    decreases Length(x)
  {
    hide *;
    SpanUnfold(x);
    LengthUnfold(x);
    if IsOdd(x) {
      OddContiguous(x);
      AllOnesIs(x);
      MovedUnfold(x, 0);
    } else {
      EvenHalf(x);
      EvenContiguous(x);
      ContiguousIs(Half(x));
      MovedUnfold(Ones(Span(x)), Ffs(Half(x)));
    }
  }

  /** Any other word is moved up from an odd one as long as its span. */
  lemma {:induction false} MaskIs(x: bv32)
    requires x != 0
    ensures exists y :: IsOdd(y) && Length(y) == Span(x) && x == Moved(y, Ffs(x))
    decreases Length(x)
  {
    hide *;
    SpanUnfold(x);
    LengthUnfold(x);
    MovedUnfold(x, 0);
    if !IsOdd(x) {
      EvenHalf(x);
      MaskIs(Half(x));
      var y :| IsOdd(y) && Length(y) == Span(Half(x)) && Half(x) == Moved(y, Ffs(Half(x)));
      MovedUnfold(y, Ffs(Half(x)));
      assert IsOdd(y) && Length(y) == Span(x) && x == Moved(y, Ffs(x));
    } else {
      assert IsOdd(x) && Length(x) == Span(x) && x == Moved(x, Ffs(x));
    }
  }

  lemma LowNibble(x: bv32)
    requires x & 15 == 0
    ensures !IsOdd(x) && !IsOdd(Half(x)) && !IsOdd(Half(Half(x))) && !IsOdd(Half(Half(Half(x))))
  {
  }

  /** Moving a word up four places moves its lowest bit and keeps its span. */
  lemma SpanUp4(x: bv32)
    requires x != 0 && x & 15 == 0
    ensures Shr4(x) != 0 && Ffs(x) == Ffs(Shr4(x)) + 4 && Span(x) == Span(Shr4(x))
  {
    LowNibble(x);
    hide *;
    Shr4Is(x);
    SpanUnfold(x);
    SpanUnfold(Half(x));
    SpanUnfold(Half(Half(x)));
    SpanUnfold(Half(Half(Half(x))));
  }

  lemma ByteSpan()
    ensures Ffs(0xff) == 0 && Span(0xff) == 8
  {
    assert Half(0xff) == 0x7f && Half(0x7f) == 0x3f && Half(0x3f) == 0x1f && Half(0x1f) == 0xf;
    assert Half(0xf) == 7 && Half(7) == 3 && Half(3) == 1 && Half(1) == 0 && IsOdd(0xff);
    hide Half, IsOdd, Length;
    LengthUnfold(0xff);
    LengthUnfold(0x7f);
    LengthUnfold(0x3f);
    LengthUnfold(0x1f);
    LengthUnfold(0xf);
    LengthUnfold(7);
    LengthUnfold(3);
    LengthUnfold(1);
    SpanUnfold(0xff);
  }
}
