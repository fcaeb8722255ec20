/** uefistub/stub.c: printing a size with a binary unit. */
module Sizes {
  import opened Console
  import opened Numerals
  import opened CStrings
  import opened Printing

  /** "B", "kB", "MB", "GB", "TB". */
  function Suffix(i: nat): (t: seq<CChar>)
    requires i <= 4
  {
    [[66], [107, 66], [77, 66], [71, 66], [84, 66]][i]
  }

  /** How many units of 1024 to the power `i` fit in a size. */
  function Units(size: nat, i: nat): nat { PowPositive(1024, i); size / Pow(1024, i) }

  /** `i` is the first of the five units in which the size is at most 1024, or the last. */
  ghost predicate IsUnit(size: nat, i: nat) {
    && i <= 4
    && (i < 4 ==> Units(size, i) <= 1024)
    && (forall j :: 0 <= j < i ==> Units(size, j) > 1024)
  }

  /** The text for a size: in bytes unless it is a multiple of 1024. */
  ghost predicate IsSizeText(size: nat, t: seq<CChar>) {
    if size % 1024 != 0 then t == Text(size, 10) + Suffix(0)
    else exists i :: IsUnit(size, i) && t == Text(Units(size, i), 10) + Suffix(i)
  }

  lemma NextUnit(size: nat, i: nat)
    ensures Units(size, 0) == size && Units(size, i) / 1024 == Units(size, i + 1)
    ensures Units(size, i) <= size
  {
    PowPositive(1024, i);
    DivDiv(size, Pow(1024, i));
    FloorDiv(size, Pow(1024, i));
  }

  lemma DivDiv(x: nat, y: nat)
    requires y >= 1
    ensures x / y / 1024 == x / (1024 * y)
  {
    var q, r := x / y, x % y;
    assert x == q * y + r;
    var q2, r2 := q / 1024, q % 1024;
    Distribute(q2, 1024, r2, y);
    MulMonotone(r2, 1023, y, y);
    Quotient(x, 1024 * y, q2, r2 * y + r);
  }

  lemma Distribute(a: nat, b: nat, c: nat, y: nat)
    ensures (a * b + c) * y == a * (b * y) + c * y
  {
    MulAssociates(a, b, y);
  }

  lemma Quotient(x: nat, d: nat, q: nat, r: nat)
    requires x == q * d + r && r < d
    ensures x / d == q
  {
    DivMod(q, r, d);
  }

  lemma FloorDiv(x: nat, y: nat)
    requires y >= 1
    ensures x / y <= x
  {
  }

  /** Reads a size that is shown: the number and how many bytes its unit has. */
  function ReadSize(t: seq<CChar>): Option<(nat, nat)> {
    if |t| < 2 || t[|t| - 1] != 'B' as int then None
    else
      var unit := ReadUnit(t[|t| - 2]);
      match Parse(t[..|t| - if unit == 1 then 1 else 2], 10)
      case Some(number) => Some((number, unit))
      case None => None
  }

  /** The bytes of a unit, by the letter in front of the B. */
  function ReadUnit(c: CChar): nat {
    if c == 'k' as int then 0x400
    else if c == 'M' as int then 0x10_0000
    else if c == 'G' as int then 0x4000_0000
    else if c == 'T' as int then 0x100_0000_0000
    else 1
  }

  /** What is shown for a size reads back as the size, rounded down to the unit: exactly for a size
      in bytes and for a power of two.  The number is at most 1024 unless it is in TB or stands for
      single bytes, and would be more than 1024 in the unit below. */
  lemma ShownSizeMeans(size: nat, t: seq<CChar>)
    requires IsSizeText(size, t)
    ensures ReadSize(t).Some?
    ensures var (number, unit) := ReadSize(t).value;
            && number * unit <= size < number * unit + unit
            && (size % 1024 != 0 ==> unit == 1)
            && (forall k: nat :: size == Pow(2, k) ==> number * unit == size)
            && (size % 1024 == 0 ==> number <= 1024 || unit == 0x100_0000_0000)
            && (unit > 1 ==> size / (unit / 1024) > 1024)
  {
    if size % 1024 != 0 {
      ReadsBack(size, 0);
    } else {
      var i :| IsUnit(size, i) && t == Text(Units(size, i), 10) + Suffix(i);
      ReadsBack(Units(size, i), i);
      UnitMeans(size, i);
    }
  }

  lemma UnitBytes(i: nat)
    requires i <= 4
    ensures Pow(1024, i) == [1, 0x400, 0x10_0000, 0x4000_0000, 0x100_0000_0000][i]
  {
    assert Pow(1024, 1) == 1024 * Pow(1024, 0);
    assert Pow(1024, 2) == 1024 * Pow(1024, 1);
    assert Pow(1024, 3) == 1024 * Pow(1024, 2);
    assert Pow(1024, 4) == 1024 * Pow(1024, 3);
  }

  lemma SuffixIs(i: nat)
    requires i <= 4
    ensures var s := Suffix(i);
            && 1 <= |s| <= 2 && s[|s| - 1] == 'B' as int && (|s| == 1 <==> i == 0)
            && (i > 0 ==> ReadUnit(s[0]) == Pow(1024, i) > 1)
  {
    UnitBytes(i);
    hide Pow;
  }

  lemma DigitIsNoUnit(n: nat)
    ensures Text(n, 10) != [] && Parse(Text(n, 10), 10) == Some(n)
    ensures ReadUnit(Text(n, 10)[|Text(n, 10)| - 1]) == 1
  {
    TextRoundTrip(n, 10);
    DecimalShape(n);
    hide Text, Parse;
  }

  lemma DecimalShape(n: nat)
    ensures Text(n, 10) != [] && 48 <= Text(n, 10)[|Text(n, 10)| - 1] <= 57
  {
    NumeralSound(n, 10);
    hide Numeral;
  }

  lemma ReadsBack(n: nat, i: nat)
    requires i <= 4
    ensures ReadSize(Text(n, 10) + Suffix(i)) == Some((n, Pow(1024, i)))
  {
    hide Text, Suffix, Parse, ReadUnit, Pow;
    var t, s := Text(n, 10), Suffix(i);
    SuffixIs(i);
    DigitIsNoUnit(n);
    UnitBytes(0);
    assert (t + s)[..|t|] == t;
  }

  lemma UnitMeans(size: nat, i: nat)
    requires IsUnit(size, i)
    ensures var number, unit := Units(size, i), Pow(1024, i);
            && number * unit <= size < number * unit + unit
            && (forall k: nat :: size == Pow(2, k) ==> number * unit == size)
            && (number <= 1024 || unit == 0x100_0000_0000)
            && (unit > 1 ==> size / (unit / 1024) > 1024)
  {
    UnitTruncation(size, i);
    UnitBytes(i);
    if i > 0 {
      KiloStep(i - 1);
      assert Units(size, i - 1) > 1024;
    }
    forall k: nat | size == Pow(2, k) ensures Units(size, i) * Pow(1024, i) == size {
      PowerOfTwoExact(k, i);
    }
  }

  method PrintSize(con: TextOutput, size: nat) returns (ghost t: seq<CChar>, ghost out: seq<seq<bv16>>)
    requires size < U64_LIMIT
    modifies con
    ensures con.shown == old(con.shown) + out
    ensures Shows(Flatten(out), t) && IsSizeText(size, t)
  {
    if size % 1024 != 0 {
      ghost var number := EfiPutd(con, size);
      ghost var unit := PutsLiteral(con, Suffix(0));
      t, out := Text(size, 10) + Suffix(0), number + unit;
      ShowsBoth(number, unit, Text(size, 10), Suffix(0));
      return;
    }
    var i := 0;
    var left := size;
    NextUnit(size, 0);
    while left > 1024
      invariant 0 <= i < 4 && left == Units(size, i) <= size
      invariant forall j :: 0 <= j < i ==> Units(size, j) > 1024
      invariant con.shown == old(con.shown)
      decreases left
    {
      NextUnit(size, i);
      NextUnit(size, i + 1);
      left := left / 1024;
      i := i + 1;
      if i == 4 {
        break;
      }
    }
    ghost var number := EfiPutd(con, left);
    ghost var unit := PutsLiteral(con, Suffix(i));
    t, out := Text(Units(size, i), 10) + Suffix(i), number + unit;
    ShowsBoth(number, unit, Text(left, 10), Suffix(i));
    assert IsUnit(size, i);
  }

  /** Shows a string literal. */
  method PutsLiteral(con: TextOutput, t: seq<CChar>) returns (ghost out: seq<seq<bv16>>)
    requires IsPlain(t)
    modifies con
    ensures con.shown == old(con.shown) + out
    ensures Shows(Flatten(out), t)
  {
    PlainShown(t);
    out := con.EfiPuts(Octets(t + [0]));
  }

  lemma {:induction false} FlattenConcat(a: seq<seq<bv16>>, b: seq<seq<bv16>>)
    ensures Flatten(a + b) == Flatten(a) + Flatten(b)
  {
    hide *;
    if b == [] {
      assert a + b == a;
      FlattenUnfold(b);
    } else {
      var k := |b| - 1;
      FlattenUnfold(b);
      FlattenUnfold(a + b);
      FlattenConcat(a, b[..k]);
      assert (a + b)[..|a + b| - 1] == a + b[..k];
    }
  }

  lemma FlattenUnfold(a: seq<seq<bv16>>)
    ensures a == [] ==> Flatten(a) == []
    ensures a != [] ==> Flatten(a) == Flatten(a[..|a| - 1]) + a[|a| - 1]
  {
  }

  lemma ShowsBoth(a: seq<seq<bv16>>, b: seq<seq<bv16>>, s: seq<CChar>, t: seq<CChar>)
    requires Shows(Flatten(a), s) && Shows(Flatten(b), t)
    ensures Shows(Flatten(a + b), s + t)
  {
    hide *;
    FlattenConcat(a, b);
    ShowsConcat(Flatten(a), Flatten(b), s, t);
  }

  lemma ShowsConcat(v: seq<bv16>, w: seq<bv16>, s: seq<CChar>, t: seq<CChar>)
    requires Shows(v, s) && Shows(w, t)
    ensures Shows(v + w, s + t)
  {
    forall i | 0 <= i < |s + t| ensures (v + w)[i] as int == (s + t)[i] {
      if i < |s| {
        assert v[i] as int == s[i];
      } else {
        assert w[i - |s|] as int == t[i - |s|];
      }
    }
  }

  /** The unit is determined by the size. */
  lemma UnitUnique(size: nat, i: nat, j: nat)
    requires IsUnit(size, i) && IsUnit(size, j)
    ensures i == j
  {
  }

  /** A size shown in a unit is exact just if it is a multiple of the unit, and never more
      than one unit below the size. */
  lemma UnitTruncation(size: nat, i: nat)
    ensures Units(size, i) * Pow(1024, i) <= size < (Units(size, i) + 1) * Pow(1024, i)
    ensures Units(size, i) * Pow(1024, i) == size <==> size % Pow(1024, i) == 0
  {
    PowPositive(1024, i);
    var u := Pow(1024, i);
    assert size == size / u * u + size % u;
  }

  /** Nothing is lost for the size of a base address register. */
  lemma PowerOfTwoExact(k: nat, i: nat)
    requires IsUnit(Pow(2, k), i)
    ensures Units(Pow(2, k), i) * Pow(1024, i) == Pow(2, k)
  {
    hide *;
    UnitExponent(k, i);
    KiloPower(i);
    PowPlus(2, k - 10 * i, 10 * i);
    UnitsExact(Pow(2, k), i, Pow(2, k - 10 * i));
  }

  lemma UnitsExact(size: nat, i: nat, w: nat)
    requires size == w * Pow(1024, i)
    ensures Units(size, i) * Pow(1024, i) == size
  {
    PowPositive(1024, i);
    hide Pow;
    ExactQuotient(size, w, Pow(1024, i));
  }

  lemma ExactQuotient(x: nat, w: nat, u: nat)
    requires u >= 1 && x == w * u
    ensures x / u * u == x
  {
    DivMod(w, 0, u);
  }

  lemma UnitExponent(k: nat, i: nat)
    requires IsUnit(Pow(2, k), i)
    ensures k >= 10 * i
  {
    if i > 0 {
      var size := Pow(2, k);
      assert Units(size, i - 1) > 1024;
      hide IsUnit, Units;
      UnitTruncation(size, i - 1);
      KiloStep(i - 1);
      MulAbove(Units(size, i - 1), 1024, Pow(1024, i - 1));
      assert size > Pow(1024, i);
      KiloPower(i);
      if k < 10 * i {
        PowExponent(2, k, 10 * i);
      }
    }
  }

  lemma KiloStep(i: nat)
    ensures Pow(1024, i) >= 1 && Pow(1024, i + 1) == 1024 * Pow(1024, i)
  {
    PowPositive(1024, i);
  }

  lemma MulAbove(a: nat, b: nat, u: nat)
    requires a > b && u >= 1
    ensures a * u > b * u
  {
  }

  lemma {:induction false} KiloPower(i: nat)
    ensures Pow(1024, i) == Pow(2, 10 * i) && Pow(1024, i) >= 1
  {
    if i > 0 {
      KiloPower(i - 1);
      PowPlus(2, 10, 10 * (i - 1));
      TwoToTen();
    }
  }

  lemma TwoToTen()
    ensures Pow(2, 10) == 1024
  {
  }
}
