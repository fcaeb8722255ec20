/** The octets and words that characters are shown as. */
module Bytes {
  /** A `char`, which is signed on the target, as an octet. */
  function Octet(c: int): bv8
    requires -128 <= c < 128
  {
    (if c < 0 then c + 256 else c) as bv8
  }

  lemma SameCode(x: int)
    requires 0 <= x < 128
    ensures (x as bv8) as int == x
  {
    assert x % 256 == x;
  }

  lemma OctetIs(c: int)
    requires 0 <= c < 128
    ensures Octet(c) == c as bv8
  {
  }

  /** In numbers: the octet of a `char` is congruent to it modulo 256. */
  lemma OctetCode(c: int)
    requires -128 <= c < 128
    ensures Octet(c) as int == if c < 0 then c + 256 else c
  {
    hide Octet;
    if c < 0 {
      NegativeIs(c);
      HighCode(c + 256);
    } else {
      OctetIs(c);
      SameCode(c);
    }
  }

  lemma NegativeIs(c: int)
    requires -128 <= c < 0
    ensures Octet(c) == (c + 256) as bv8
  {
  }

  lemma HighCode(x: int)
    requires 128 <= x < 256
    ensures (x as bv8) as int == x
  {
    assert x % 256 == x;
  }

  lemma SmallOctet(b: bv8)
    requires b as int < 128
    ensures b < 0x80
  {
  }

  lemma PlainOctet(c: int)
    requires 0 < c < 128 && c != 10
    ensures Octet(c) != 0 && Octet(c) != 10 && Octet(c) < 0x80
    ensures Octet(c) as int == c
  {
    hide Octet;
    OctetIs(c);
    SameCode(c);
    SmallOctet(Octet(c));
  }

  lemma WordCode(b: bv8)
    requires b < 0x80
    ensures (b as bv16) as int == b as int
  {
  }
}
