/** Positional numerals: the reference the three converters are measured against. */
module Numerals {
  datatype Option<+T> = None | Some(value: T)

  /** A C `char`, which is signed on the target. */
  type CChar = c: int | -128 <= c < 128

  function Pow(b: nat, e: nat): nat {
    if e == 0 then 1 else b * Pow(b, e - 1)
  }

  /** The number a digit string stands for, most significant digit first. */
  function Value(ds: seq<nat>, b: nat): nat {
    if ds == [] then 0 else Value(ds[..|ds| - 1], b) * b + ds[|ds| - 1]
  }

  function Numeral(n: nat, b: nat): (ds: seq<nat>)
    requires b >= 2
    decreases n
  {
    if n < b then [n] else (DivLess(n, b); Numeral(n / b, b) + [n % b])
  }

  lemma DivLess(n: nat, b: nat)
    requires 2 <= b <= n
    ensures 1 <= n / b < n && n == n / b * b + n % b
  {
  }

  /** Digits of the base without a leading zero, zero itself being one digit. */
  ghost predicate IsCanonical(ds: seq<nat>, b: nat) {
    && ds != []
    && (forall i :: 0 <= i < |ds| ==> ds[i] < b)
    && (ds[0] == 0 ==> |ds| == 1)
  }

  /** A numeral is canonical and stands for its number. */
  lemma {:induction false} NumeralSound(n: nat, b: nat)
    requires b >= 2
    ensures IsCanonical(Numeral(n, b), b) && Value(Numeral(n, b), b) == n
    ensures n > 0 ==> Numeral(n, b)[0] != 0
    decreases n
  {
    if n < b {
      assert Value([n], b) == Value([], b) * b + n;
    } else {
      DivLess(n, b);
      NumeralSound(n / b, b);
      assert Numeral(n, b)[..|Numeral(n, b)| - 1] == Numeral(n / b, b);
    }
  }

  /** Writing one more digit after a numeral multiplies by the base and adds the digit. */
  lemma NumeralAppend(n: nat, d: nat, b: nat)
    requires b >= 2 && d < b
    ensures Numeral(n * b + d, b) == if n == 0 then [d] else Numeral(n, b) + [d]
  {
    if n > 0 {
      assert n * b + d >= b;
      DivMod(n, d, b);
    }
  }

  lemma DivMod(n: nat, d: nat, b: nat)
    requires d < b
    ensures (n * b + d) / b == n && (n * b + d) % b == d
  {
    var q, r := (n * b + d) / b, (n * b + d) % b;
    assert n * b + d == q * b + r;
    if q < n {
      MulAtLeast(n - q, b);
    } else if q > n {
      MulAtLeast(q - n, b);
    }
  }

  lemma MulAtLeast(a: nat, b: nat)
    requires a >= 1
    ensures a * b >= b
  {
  }

  /** No other canonical digit string stands for the same number. */
  lemma {:induction false} NumeralComplete(ds: seq<nat>, b: nat)
    requires b >= 2 && IsCanonical(ds, b)
    ensures Numeral(Value(ds, b), b) == ds
  {
    var k := |ds| - 1;
    if k == 0 {
      assert Value(ds[..0], b) == 0;
    } else {
      var head := ds[..k];
      NumeralComplete(head, b);
      NumeralAppend(Value(head, b), ds[k], b);
      if Value(head, b) == 0 {
        assert false;
      }
    }
  }

  /** The exact length of a numeral, as bounds. */
  lemma {:induction false} NumeralLength(n: nat, b: nat, k: nat)
    requires b >= 2 && k >= 1
    ensures |Numeral(n, b)| <= k <==> n < Pow(b, k)
    decreases n
  {
    if n < b {
      PowGrows(b, k);
    } else {
      DivLess(n, b);
      if k == 1 {
        assert Pow(b, 1) == b * Pow(b, 0);
      } else {
        NumeralLength(n / b, b, k - 1);
        DivBound(n, b, Pow(b, k - 1));
      }
    }
  }

  lemma DivBound(n: nat, b: nat, p: nat)
    requires b >= 2
    ensures n / b < p <==> n < b * p
  {
    var q, r := n / b, n % b;
    assert n == q * b + r;
    if q < p {
      assert (q + 1) * b <= p * b;
    } else {
      assert q * b >= p * b;
    }
  }

  lemma {:induction false} PowGrows(b: nat, k: nat)
    requires b >= 2 && k >= 1
    ensures Pow(b, k) >= b
  {
    if k > 1 {
      PowGrows(b, k - 1);
    }
  }

  /** Longer numerals stand for larger numbers. */
  lemma LengthOrder(m: nat, n: nat, b: nat)
    requires b >= 2 && |Numeral(m, b)| < |Numeral(n, b)|
    ensures m < n
  {
    var k := |Numeral(m, b)|;
    NumeralSound(m, b);
    NumeralLength(m, b, k);
    NumeralLength(n, b, k);
  }

  /** The first place where two digit strings of one length differ. */
  ghost predicate DifferAt(xs: seq<nat>, ys: seq<nat>, i: nat) {
    |xs| == |ys| && i < |xs| && xs[..i] == ys[..i] && xs[i] != ys[i]
  }

  /** Digit strings of one length are ordered by the first place where they differ. */
  lemma {:induction false} DigitOrder(xs: seq<nat>, ys: seq<nat>, b: nat, i: nat)
    requires b >= 2 && DifferAt(xs, ys, i)
    requires forall j :: 0 <= j < |xs| ==> xs[j] < b && ys[j] < b
    ensures Value(xs, b) < Value(ys, b) <==> xs[i] < ys[i]
    ensures Value(xs, b) != Value(ys, b)
  {
    var k := |xs| - 1;
    var hx, hy := xs[..k], ys[..k];
    if i == k {
      assert Value(hx, b) == Value(hy, b);
    } else {
      assert hx[..i] == xs[..i] && hy[..i] == ys[..i];
      DigitOrder(hx, hy, b, i);
      HeadOrder(Value(hx, b), Value(hy, b), xs[k], ys[k], b);
    }
  }

  lemma HeadOrder(x: nat, y: nat, c: nat, d: nat, b: nat)
    requires c < b && d < b && x != y
    ensures x * b + c < y * b + d <==> x < y
    ensures x * b + c != y * b + d
  {
    if x < y {
      assert (x + 1) * b <= y * b;
    } else {
      assert (y + 1) * b <= x * b;
    }
  }

  /** Either two digit strings of one length are equal or they differ somewhere first. */
  lemma {:induction false} FirstDifference(xs: seq<nat>, ys: seq<nat>) returns (i: nat)
    requires |xs| == |ys|
    ensures xs == ys || DifferAt(xs, ys, i)
  {
    i := 0;
    while i < |xs| && xs[i] == ys[i]
      invariant i <= |xs| && xs[..i] == ys[..i]
    {
      i := i + 1;
    }
  }

  /** The character of a digit: '0' to '9', then 'a' to 'z'. */
  function DigitChar(d: nat): CChar
    requires d < 36
  {
    if d > 9 then 'a' as int + (d - 10) else '0' as int + d
  }

  function Chars(ds: seq<nat>): (t: seq<CChar>)
    requires forall i :: 0 <= i < |ds| ==> ds[i] < 36
  {
    seq(|ds|, i requires 0 <= i < |ds| => DigitChar(ds[i]))
  }

  /** The text of a number in a base. */
  function Text(n: nat, b: nat): (t: seq<CChar>)
    requires 2 <= b <= 36
  {
    NumeralSound(n, b);
    Chars(Numeral(n, b))
  }

  function DigitOf(c: CChar, b: nat): Option<nat> {
    if 48 <= c <= 57 && c - 48 < b then Some(c - 48)
    else if 97 <= c <= 122 && c - 87 < b then Some(c - 87)
    else None
  }

  /** Reads a text as a number in a base, or reports that it is none. */
  function Parse(t: seq<CChar>, b: nat): Option<nat> {
    if t == [] then None
    else
      var d := DigitOf(t[|t| - 1], b);
      var head := if |t| == 1 then Some(0) else Parse(t[..|t| - 1], b);
      if d.Some? && head.Some? then Some(head.value * b + d.value) else None
  }

  lemma {:induction false} ParseChars(ds: seq<nat>, b: nat)
    requires b <= 36 && ds != [] && forall i :: 0 <= i < |ds| ==> ds[i] < b
    ensures Parse(Chars(ds), b) == Some(Value(ds, b))
  {
    var k := |ds| - 1;
    assert Chars(ds)[..k] == Chars(ds[..k]);
    if k > 0 {
      ParseChars(ds[..k], b);
    } else {
      assert Value(ds[..0], b) == 0;
    }
  }

  lemma {:induction false} ParsedIsChars(t: seq<CChar>, b: nat)
    requires b <= 36 && Parse(t, b).Some?
    ensures exists ds :: |ds| == |t| && (forall i :: 0 <= i < |ds| ==> ds[i] < b) && Chars(ds) == t
  {
    var k := |t| - 1;
    var d := DigitOf(t[k], b).value;
    if k == 0 {
      assert Chars([d]) == t;
    } else {
      ParsedIsChars(t[..k], b);
      var ds :| |ds| == k && (forall i :: 0 <= i < |ds| ==> ds[i] < b) && Chars(ds) == t[..k];
      assert forall i :: 0 <= i < k ==> t[i] == t[..k][i] == Chars(ds)[i];
      assert Chars(ds + [d]) == t;
    }
  }

  /** Printing and parsing are inverse: the text of a number reads back as the number, and it
      is the only text without a superfluous leading zero that does. */
  lemma TextRoundTrip(n: nat, b: nat)
    requires 2 <= b <= 36
    ensures Parse(Text(n, b), b) == Some(n)
    ensures forall t :: Parse(t, b) == Some(n) && (t[0] == 48 ==> |t| == 1) ==> t == Text(n, b)
  {
    NumeralSound(n, b);
    ParseChars(Numeral(n, b), b);
    forall t | Parse(t, b) == Some(n) && (t[0] == 48 ==> |t| == 1) ensures t == Text(n, b) {
      ParsedIsChars(t, b);
      var ds :| |ds| == |t| && (forall i :: 0 <= i < |ds| ==> ds[i] < b) && Chars(ds) == t;
      ParseChars(ds, b);
      assert t[0] == DigitChar(ds[0]);
      NumeralComplete(ds, b);
    }
  }

  /** The digits, in numbers, and three texts: "255", "ff" and "73" in base 36. */
  lemma KnownTexts(d: nat)
    requires d < 36
    ensures DigitChar(d) == if d < 10 then 48 + d else 87 + d
    ensures Text(255, 10) == [50, 53, 53] && Text(255, 16) == [102, 102] && Text(255, 36) == [55, 51]
  {
    assert Numeral(25, 10) == [2, 5] && Numeral(255, 10) == [2, 5] + [5];
  }

  /** The shape of a text: printable digits only, and no leading zero unless it is "0". */
  lemma TextShape(n: nat, b: nat)
    requires 2 <= b <= 36
    ensures Text(n, b) != [] && (Text(n, b)[0] == 48 ==> n == 0 && |Text(n, b)| == 1)
    ensures forall i :: 0 <= i < |Text(n, b)| ==> 48 <= Text(n, b)[i] <= 57 || 97 <= Text(n, b)[i] <= 122
  {
    NumeralSound(n, b);
  }

  lemma PowPlus(b: nat, x: nat, y: nat)
    ensures Pow(b, x + y) == Pow(b, x) * Pow(b, y)
  {
    if x > 0 {
      PowPlus(b, x - 1, y);
      MulAssociates(b, Pow(b, x - 1), Pow(b, y));
    }
  }

  lemma MulAssociates(x: nat, y: nat, z: nat)
    ensures x * (y * z) == x * y * z
  {
  }

  lemma PowPositive(b: nat, e: nat)
    requires b >= 1
    ensures Pow(b, e) >= 1
  {
  }

  lemma PowMonotone(a: nat, b: nat, e: nat)
    requires a <= b
    ensures Pow(a, e) <= Pow(b, e)
  {
    if e > 0 {
      PowMonotone(a, b, e - 1);
      MulMonotone(a, b, Pow(a, e - 1), Pow(b, e - 1));
    }
  }

  lemma MulMonotone(a: nat, b: nat, x: nat, y: nat)
    requires a <= b && x <= y
    ensures a * x <= b * y
  {
    assert a * x <= a * y;
    assert a * y <= b * y;
  }

  lemma SmallDiv(n: nat, b: nat)
    requires n < b
    ensures n / b == 0 && n % b == n
  {
  }

  lemma PowExponent(b: nat, x: nat, y: nat)
    requires b >= 1 && x <= y
    ensures Pow(b, x) <= Pow(b, y)
  {
    hide Pow;
    PowPlus(b, x, y - x);
    PowPositive(b, y - x);
    MulMonotone(1, Pow(b, y - x), Pow(b, x), Pow(b, x));
  }

  lemma FloorMultiple(v: nat, unit: nat)
    requires unit >= 1
    ensures 0 <= v / unit * unit <= v
  {
  }

  const U64_LIMIT := 0x1_0000_0000_0000_0000

  /** The longest texts of a 64-bit number; the largest number attains each of them. */
  lemma TextBounds(n: nat)
    requires n < U64_LIMIT
    ensures |Text(n, 2)| <= 64 && |Text(n, 8)| <= 22 && |Text(n, 10)| <= 20
    ensures |Text(n, 16)| <= 16 && |Text(n, 36)| <= 13
    ensures n == U64_LIMIT - 1 ==>
              && |Text(n, 2)| == 64 && |Text(n, 8)| == 22 && |Text(n, 10)| == 20
              && |Text(n, 16)| == 16 && |Text(n, 36)| == 13
  {
    hide Numeral, Pow;
    Powers();
    NumeralLength(n, 2, 63);
    NumeralLength(n, 2, 64);
    NumeralLength(n, 8, 21);
    NumeralLength(n, 8, 22);
    NumeralLength(n, 10, 19);
    NumeralLength(n, 10, 20);
    NumeralLength(n, 16, 15);
    NumeralLength(n, 16, 16);
    NumeralLength(n, 36, 12);
    NumeralLength(n, 36, 13);
  }

  lemma SmallPowers()
    ensures Pow(2, 8) == 0x100 && Pow(2, 7) == 0x80
    ensures Pow(8, 5) == 0x8000 && Pow(10, 5) == 100000 && Pow(16, 4) == 0x1_0000
    ensures Pow(36, 4) == 1679616
  {
  }

  lemma Powers()
    ensures Pow(2, 63) < U64_LIMIT <= Pow(2, 64)
    ensures Pow(8, 21) < U64_LIMIT <= Pow(8, 22)
    ensures Pow(10, 19) < U64_LIMIT <= Pow(10, 20)
    ensures Pow(16, 15) < U64_LIMIT <= Pow(16, 16)
    ensures Pow(36, 12) < U64_LIMIT <= Pow(36, 13)
  {
    SmallPowers();
    PowPlus(2, 8, 8);
    PowPlus(2, 16, 16);
    PowPlus(2, 32, 32);
    PowPlus(8, 5, 5);
    PowPlus(8, 10, 10);
    PowPlus(8, 1, 20);
    PowPlus(8, 1, 21);
    PowPlus(10, 5, 5);
    PowPlus(10, 10, 10);
    PowPlus(16, 4, 4);
    PowPlus(16, 8, 8);
    PowPlus(36, 4, 4);
    PowPlus(36, 8, 4);
    HalfPowers();
  }

  lemma HalfPowers()
    ensures Pow(2, 64) == 2 * Pow(2, 63)
    ensures Pow(10, 20) == 10 * Pow(10, 19)
    ensures Pow(16, 16) == 16 * Pow(16, 15)
    ensures Pow(36, 13) == 36 * Pow(36, 12)
    ensures Pow(8, 1) == 8
  {
  }
}
