/** utils/string.c: the three conversions from a 64-bit number to text, and their entry point. */
module Convert {
  import opened Numerals
  import opened Sequences
  import opened CStrings

  /** The C operators on `uint64_t`, with their wrap-around. */
  function Shr64(x: nat, n: nat): nat { PowPositive(2, n); x / Pow(2, n) }

  function Shl64(x: nat, n: nat): nat { x * Pow(2, n) % U64_LIMIT }

  function Mul64(x: nat, y: nat): nat { x * y % U64_LIMIT }

  function Sub64(x: nat, y: nat): nat { (x - y) % U64_LIMIT }

  /** `x & ((1 << bits) - 1)`. */
  function LowBits(x: nat, bits: nat): nat { PowPositive(2, bits); x % Pow(2, bits) }

  /** The converters' digit arithmetic. */
  lemma DigitCharIs(d: nat)
    requires d < 36
    ensures DigitChar(d) == '0' as int + if d > 9 then d + ('a' as int - '0' as int - 10) else d
  {
  }

  lemma AtMost64(n: nat, b: nat)
    requires 2 <= b <= 36 && n < U64_LIMIT
    ensures |Text(n, b)| <= 64
  {
    hide Numeral, Pow;
    Powers();
    PowMonotone(2, b, 64);
    NumeralLength(n, b, 64);
  }

  lemma CharsAppend(ds: seq<nat>, d: nat)
    requires d < 36 && forall i :: 0 <= i < |ds| ==> ds[i] < 36
    ensures Chars(ds + [d]) == Chars(ds) + [DigitChar(d)] && Chars([]) == []
  {
  }

  lemma TextUnfold(n: nat, b: nat)
    requires 2 <= b <= 36
    ensures 0 <= n % b < b
    ensures n < b ==> n / b == 0 && n % b == n && Text(n, b) == [DigitChar(n)]
    ensures n >= b ==> 0 < n / b < n && Text(n, b) == Text(n / b, b) + [DigitChar(n % b)]
  {
    hide Chars, DigitChar;
    if n >= b {
      DivLess(n, b);
      NumeralSound(n / b, b);
      CharsAppend(Numeral(n / b, b), n % b);
    } else {
      SmallDiv(n, b);
      CharsAppend([], n);
      assert Numeral(n, b) == [] + [n];
    }
  }

  /** One round of divide and modulo moves the last digit of what is left to the result. */
  lemma NaiveRound(v: nat, base: nat, done: seq<CChar>)
    requires 2 <= base <= 36
    ensures v % base < base
    ensures v < base ==>
      && v / base == 0 && |Text(v, base)| == 1
      && Text(v, base) + Reverse(done) == Reverse(done + [DigitChar(v % base)])
    ensures v >= base ==>
      && 0 < v / base < v && |Text(v, base)| == |Text(v / base, base)| + 1
      && Text(v, base) + Reverse(done) == Text(v / base, base) + Reverse(done + [DigitChar(v % base)])
  {
    hide *;
    var c := DigitChar(v % base);
    ReverseConcat(done, [c]);
    ReverseOne(c);
    TextUnfold(v, base);
    if v >= base {
      assert Text(v / base, base) + [c] + Reverse(done) == Text(v / base, base) + ([c] + Reverse(done));
    }
  }

  lemma ReverseOne(c: CChar)
    ensures Reverse([c]) == [c] && Reverse([]) == []
  {
    ReverseAt([c], 0);
  }

  method NaiveConvert(value: nat, buffer: array<CChar>, off: nat, base: nat) returns (digits: nat)
    requires value < U64_LIMIT && 2 <= base <= 36
    requires off + |Text(value, base)| < buffer.Length
    modifies buffer
    ensures digits == |Text(value, base)|
    ensures buffer[..] == Filled(old(buffer[..]), off, Text(value, base) + [0])
  {
    hide *;
    ghost var was, t := buffer[..], Text(value, base);
    digits := 0;
    var reverse := new CChar[64];
    var v := value;
    AtMost64(value, base);
    ReverseNil(t, reverse[..]);
    while true
      invariant v >= 0 && (v > 0 || digits == 0)
      invariant digits + |Text(v, base)| == |t| <= 64
      invariant Text(v, base) + Reverse(reverse[..digits]) == t
      invariant buffer[..] == was
      decreases v
    {
      ghost var done := reverse[..digits];
      NaiveRound(v, base, done);
      DigitCharIs(v % base);
      var digit := v % base;
      v := v / base;
      if digit > 9 {
        digit := digit + ('a' as int - '0' as int - 10);
      }
      reverse[digits] := '0' as int + digit;
      digits := digits + 1;
      assert reverse[..digits] == done + ['0' as int + digit];
      if v == 0 {
        break;
      }
    }
    FilledStart(was, off);
    var digit := 0;
    while digit < digits
      invariant digit <= digits && Reverse(reverse[..digits]) == t
      invariant buffer[..] == Filled(was, off, t[..digit])
    {
      ReverseAt(reverse[..digits], digit);
      ghost var now := buffer[..];
      FilledPrefix(was, off, t, digit, now);
      buffer[off + digit] := reverse[digits - 1 - digit];
      assert buffer[..] == now[off + digit := t[digit]];
      digit := digit + 1;
    }
    assert t[..digit] == t;
    ghost var now := buffer[..];
    FilledNext(was, off, t, 0, now);
    buffer[off + digits] := 0;
    assert buffer[..] == now[off + digits := 0];
  }

  lemma FilledPrefix(was: seq<CChar>, off: nat, t: seq<CChar>, k: nat, now: seq<CChar>)
    requires off + |t| <= |was| && k < |t| && now == Filled(was, off, t[..k])
    ensures |now| == |was| && now[off + k := t[k]] == Filled(was, off, t[..k + 1])
  {
    hide Filled;
    FilledNext(was, off, t[..k], t[k], now);
    assert t[..k] + [t[k]] == t[..k + 1];
  }

  lemma ReverseNil(t: seq<CChar>, s: seq<CChar>)
    ensures t + Reverse(s[..0]) == t
  {
  }

  /** The text written so far for the leading part `a` of a number. */
  function Leading(a: nat, base: nat): seq<CChar>
    requires 2 <= base <= 36
  {
    if a == 0 then [] else Text(a, base)
  }

  /** `value` splits into the part `a` whose text is `shown` and the part `v` still to come,
      which is below `scale`. */
  ghost predicate Split(value: nat, v: int, a: nat, scale: nat, base: nat, shown: seq<CChar>) {
    && 2 <= base <= 36
    && 0 <= v < scale && value == a * scale + v
    && shown == Leading(a, base)
  }

  /** What is left of `v` after `d` subtractions of `unit`. */
  function Rest(v: nat, unit: nat, d: nat): int { v - d * unit }

  /** The leading part after one more digit. */
  function Advance(a: nat, base: nat, d: nat): nat { a * base + d }

  /** A digit is shown unless it is a leading zero; the last one always is. */
  function Shown(shown: seq<CChar>, d: nat, last: bool): seq<CChar>
    requires d < 36
  {
    if shown == [] && d == 0 && !last then [] else shown + [DigitChar(d)]
  }

  /** Taking the next digit from the top; the last digit completes the text. */
  lemma DigitStep(value: nat, v: nat, a: nat, unit: nat, scale: nat, base: nat, shown: seq<CChar>,
                  d: nat, last: bool)
    requires unit >= 1 && scale == base * unit && Split(value, v, a, scale, base, shown)
    requires d == v / unit && (last ==> unit == 1)
    ensures d < base <= 36 && 0 <= Rest(v, unit, d) < unit && Rest(v, unit, d) <= v
    ensures |shown| <= |Shown(shown, d, last)| <= |Text(value, base)|
    ensures Split(value, Rest(v, unit, d), Advance(a, base, d), unit, base, Shown(shown, d, false))
    ensures last ==> Shown(shown, d, last) == Text(value, base)
  {
    hide Advance, Rest, Text, DigitChar;
    DigitArithmetic(value, v, a, unit, base, d);
    var b := Advance(a, base, d);
    TextShape(value, base);
    if b > 0 {
      DigitAppended(a, d, base);
      LengthMonotone(b, value, base);
    } else {
      TextUnfold(0, base);
    }
    if a > 0 {
      TextShape(a, base);
    }
  }

  lemma DigitArithmetic(value: nat, v: nat, a: nat, unit: nat, base: nat, d: nat)
    requires unit >= 1 && base >= 2 && value == a * (base * unit) + v && v < base * unit && d == v / unit
    ensures d < base && 0 <= Rest(v, unit, d) < unit && Rest(v, unit, d) <= v
    ensures value == Advance(a, base, d) * unit + Rest(v, unit, d)
    ensures Advance(a, base, d) <= value && (Advance(a, base, d) == 0 <==> a == 0 && d == 0)
    ensures unit == 1 ==> Rest(v, unit, d) == 0 && value == Advance(a, base, d)
  {
    hide *;
    DivDigit(v, unit, base);
    RestIs(v, unit, d);
    Rescale(a, base, d, unit);
    AtLeast(Advance(a, base, d), unit, value);
    AdvanceZero(a, base, d);
  }

  lemma RestIs(v: nat, unit: nat, d: nat)
    ensures Rest(v, unit, d) == v - d * unit
  {
  }

  lemma AdvanceZero(a: nat, base: nat, d: nat)
    requires base > 0
    ensures Advance(a, base, d) == 0 <==> a == 0 && d == 0
  {
    if a > 0 {
      MulPositive(a, base);
    }
  }

  lemma MulPositive(a: nat, b: nat)
    requires a > 0 && b > 0
    ensures a * b > 0
  {
  }

  lemma DivDigit(v: nat, unit: nat, base: nat)
    requires unit >= 1 && v < base * unit
    ensures 0 <= v / unit < base && 0 <= v - v / unit * unit < unit
  {
    var d, r := v / unit, v % unit;
    assert v == d * unit + r;
    if d >= base {
      MulMonotone(base, d, unit, unit);
    }
  }

  lemma Rescale(a: nat, base: nat, d: nat, unit: nat)
    ensures a * (base * unit) + d * unit == Advance(a, base, d) * unit
  {
    MulAssociates(a, base, unit);
  }

  lemma AtLeast(x: nat, unit: nat, value: nat)
    requires unit >= 1 && x * unit <= value
    ensures x <= value && (unit == 1 ==> x * unit == x)
  {
    MulMonotone(1, unit, x, x);
  }

  lemma DigitAppended(a: nat, d: nat, base: nat)
    requires 2 <= base <= 36 && d < base && Advance(a, base, d) > 0
    ensures Leading(Advance(a, base, d), base) == Leading(a, base) + [DigitChar(d)]
  {
    NumeralAppend(a, d, base);
    NumeralSound(a, base);
    CharsAppend(if a == 0 then [] else Numeral(a, base), d);
  }

  lemma LengthMonotone(m: nat, n: nat, b: nat)
    requires 2 <= b <= 36 && m <= n
    ensures |Text(m, b)| <= |Text(n, b)|
  {
    if |Text(m, b)| > |Text(n, b)| {
      LengthOrder(n, m, b);
    }
  }

  method BitwiseConvert(value: nat, buffer: array<CChar>, off: nat, bits: nat) returns (digits: nat)
    requires value < U64_LIMIT && 1 <= bits <= 5
    requires off + |Text(value, BaseOf(bits))| < buffer.Length
    modifies buffer
    ensures digits == |Text(value, BaseOf(bits))|
    ensures buffer[..] == Filled(old(buffer[..]), off, Text(value, BaseOf(bits)) + [0])
  {
    hide *;
    digits := 0;
    ghost var was, base, t := buffer[..], BaseOf(bits), Text(value, BaseOf(bits));
    ghost var a: nat, shown: seq<CChar> := 0, [];
    var v := value;
    var pos: int := 63 / bits * bits;
    FilledStart(was, off);
    BitwiseStart(value, bits, pos);
    while true
      invariant pos >= 0 && pos % bits == 0 && 0 <= v < U64_LIMIT
      invariant Split(value, v, a, Pow(2, pos + bits), base, shown)
      invariant digits == |shown| <= |t| && buffer[..] == Filled(was, off, shown)
      decreases pos
    {
      Positions(pos, bits);
      BitwiseDigit(value, v, a, pos, bits, shown);
      ghost var d, now := v / Pow(2, pos), buffer[..];
      DigitStep(value, v, a, Pow(2, pos), Pow(2, pos + bits), base, shown, d, pos < bits);
      ShownIs(shown, d, pos < bits);
      DigitCharIs(d);
      a, shown := Advance(a, base, d), Shown(shown, d, pos < bits);

      var digit := LowBits(Shr64(v, pos), bits);
      v := Sub64(v, Shl64(digit, pos));
      pos := pos - bits;
      if digits != 0 || digit != 0 || pos < 0 {
        if digit > 9 {
          digit := digit + ('a' as int - '0' as int - 10);
        }
        FilledNext(was, off, shown[..digits], DigitChar(d), now);
        buffer[off + digits] := '0' as int + digit;
        assert buffer[..] == now[off + digits := DigitChar(d)];
        digits := digits + 1;
      }
      if !(pos >= 0) {
        break;
      }
    }
    ghost var now := buffer[..];
    FilledNext(was, off, shown, 0, now);
    buffer[off + digits] := 0;
    assert buffer[..] == now[off + digits := 0];
  }

  lemma ShownIs(shown: seq<CChar>, d: nat, last: bool)
    requires d < 36
    ensures if shown == [] && d == 0 && !last then Shown(shown, d, last) == shown
            else Shown(shown, d, last) == shown + [DigitChar(d)]
    ensures !last ==> Shown(shown, d, last) == Shown(shown, d, false)
  {
  }

  /** The base whose digits have `bits` bits. */
  function BaseOf(bits: nat): (base: nat)
    requires 1 <= bits <= 5
    ensures 2 <= base <= 36 && base == Pow(2, bits)
  {
    BitwiseBases();
    Pow(2, bits)
  }

  lemma BitwiseBases()
    ensures Pow(2, 1) == 2 && Pow(2, 2) == 4 && Pow(2, 3) == 8 && Pow(2, 4) == 16 && Pow(2, 5) == 32
  {
  }

  /** The topmost digit position covers a 64-bit number whether or not `bits` divides 64. */
  lemma BitwiseStart(value: nat, bits: nat, pos: nat)
    requires value < U64_LIMIT && 1 <= bits <= 5 && pos == 63 / bits * bits
    ensures Split(value, value, 0, Pow(2, pos + bits), BaseOf(bits), []) && pos % bits == 0
  {
    TopPosition(bits, pos);
    TwoToSixtyFour();
    hide Pow;
    PowExponent(2, 64, pos + bits);
  }

  lemma TopPosition(bits: nat, pos: nat)
    requires 1 <= bits <= 5 && pos == 63 / bits * bits
    ensures pos + bits >= 64 && pos % bits == 0
  {
    assert bits == 1 || bits == 2 || bits == 3 || bits == 4 || bits == 5;
  }

  lemma TwoToSixtyFour()
    ensures U64_LIMIT <= Pow(2, 64)
  {
    hide *;
    Powers();
  }

  /** Shift, mask and subtraction neither lose bits nor wrap around. */
  lemma BitwiseDigit(value: nat, v: nat, a: nat, pos: nat, bits: nat, shown: seq<CChar>)
    requires 1 <= bits <= 5 && v < U64_LIMIT
    requires Split(value, v, a, Pow(2, pos + bits), BaseOf(bits), shown)
    ensures Pow(2, pos) >= 1 && Pow(2, pos + bits) == BaseOf(bits) * Pow(2, pos)
    ensures 0 <= LowBits(Shr64(v, pos), bits) == v / Pow(2, pos)
    ensures Sub64(v, Shl64(v / Pow(2, pos), pos)) == Rest(v, Pow(2, pos), v / Pow(2, pos))
  {
    hide *;
    PowPositive(2, pos);
    PowPlus(2, bits, pos);
    ShiftIsDivision(v, pos, bits);
    SplitBounds(value, v, a, Pow(2, pos + bits), BaseOf(bits), shown);
    DivDigit(v, Pow(2, pos), BaseOf(bits));
    SmallDiv(v / Pow(2, pos), BaseOf(bits));
  }

  lemma SplitBounds(value: nat, v: int, a: nat, scale: nat, base: nat, shown: seq<CChar>)
    requires Split(value, v, a, scale, base, shown)
    ensures 0 <= v < scale
  {
  }

  lemma ShiftIsDivision(v: nat, pos: nat, bits: nat)
    requires 1 <= bits <= 5 && v < U64_LIMIT
    ensures Pow(2, pos) >= 1
    ensures LowBits(Shr64(v, pos), bits) == v / Pow(2, pos) % BaseOf(bits)
    ensures Sub64(v, Shl64(v / Pow(2, pos), pos)) == Rest(v, Pow(2, pos), v / Pow(2, pos))
  {
    PowPositive(2, pos);
    hide Pow;
    FloorMultiple(v, Pow(2, pos));
    NoWrap(v, v / Pow(2, pos) * Pow(2, pos));
  }

  lemma NoWrap(v: nat, x: int)
    requires v < U64_LIMIT
    ensures 0 <= x <= v ==> x % U64_LIMIT == x && (v - x) % U64_LIMIT == v - x
  {
  }

  /** The positions of the digits step down to 0. */
  lemma Positions(pos: nat, bits: nat)
    requires 1 <= bits <= 5 && pos % bits == 0
    ensures pos < bits ==> pos == 0 && Pow(2, pos) == 1
    ensures pos >= bits ==> (pos - bits) % bits == 0
  {
    assert bits == 1 || bits == 2 || bits == 3 || bits == 4 || bits == 5;
  }

  lemma TenPowers()
    ensures Pow(10, 19) < U64_LIMIT <= Pow(10, 20)
  {
    hide *;
    Powers();
  }

  lemma DecimalStart(value: nat)
    requires value < U64_LIMIT
    ensures Split(value, value, 0, Pow(10, 20), 10, [])
  {
    hide Pow;
    TenPowers();
  }

  lemma TenTimes(pos: nat)
    ensures Pow(10, pos) >= 1 && Pow(10, pos + 1) == 10 * Pow(10, pos) && Pow(10, 0) == 1
  {
    PowPositive(10, pos);
  }

  /** The powers of ten up to the position of the leading digit fit a 64-bit word. */
  lemma DecimalUnit(pos: nat)
    requires pos <= 19
    ensures 1 <= Pow(10, pos) < U64_LIMIT && Pow(10, pos + 1) == 10 * Pow(10, pos)
    ensures pos == 0 ==> Pow(10, pos) == 1
  {
    hide *;
    TenPowers();
    TenTimes(pos);
    PowExponent(10, pos, 19);
  }

  method ToDecimal(value: nat, buffer: array<CChar>, off: nat) returns (digits: nat)
    requires value < U64_LIMIT && off + |Text(value, 10)| < buffer.Length
    modifies buffer
    ensures digits == |Text(value, 10)|
    ensures buffer[..] == Filled(old(buffer[..]), off, Text(value, 10) + [0])
  {
    hide *;
    digits := 0;
    ghost var was, t := buffer[..], Text(value, 10);
    ghost var a: nat, shown: seq<CChar> := 0, [];
    var v := value;
    var pos := 19;
    FilledStart(was, off);
    DecimalStart(value);
    while true
      invariant 0 <= pos <= 19 && 0 <= v < U64_LIMIT
      invariant Split(value, v, a, Pow(10, pos + 1), 10, shown)
      invariant digits == |shown| <= |t| && buffer[..] == Filled(was, off, shown)
      decreases pos
    {
      ghost var now := buffer[..];
      var lim := 1;
      var i := 0;
      DecimalUnit(0);
      while i < pos
        invariant 0 <= i <= pos && lim == Pow(10, i) && buffer[..] == now
      {
        DecimalUnit(i);
        DecimalUnit(i + 1);
        Mul64Small(lim, 10);
        lim := Mul64(lim, 10);
        i := i + 1;
      }
      DecimalUnit(pos);

      ghost var d, v0 := v / lim, v;
      DigitStep(value, v, a, lim, Pow(10, pos + 1), 10, shown, d, pos == 0);
      ShownIs(shown, d, pos == 0);
      DigitCharIs(d);
      a, shown := Advance(a, 10, d), Shown(shown, d, pos == 0);
      QuotientZero(v, lim);
      if digits != 0 || v >= lim || pos == 0 {
        var digit := 0;
        while v >= lim
          invariant 0 <= digit <= d && v == Rest(v0, lim, digit) && 0 <= v < U64_LIMIT
          invariant buffer[..] == now
          decreases v
        {
          Subtracted(v0, lim, digit);
          v := Sub64(v, lim);
          digit := digit + 1;
        }
        Exhausted(v0, lim, digit);
        FilledNext(was, off, shown[..digits], DigitChar(d), now);
        buffer[off + digits] := '0' as int + digit;
        assert buffer[..] == now[off + digits := DigitChar(d)];
        digits := digits + 1;
      }
      if pos == 0 {
        break;
      }
      pos := pos - 1;
    }
    ghost var now := buffer[..];
    FilledNext(was, off, shown, 0, now);
    buffer[off + digits] := 0;
    assert buffer[..] == now[off + digits := 0];
  }

  lemma Mul64Small(x: nat, y: nat)
    requires x * y < U64_LIMIT
    ensures Mul64(x, y) == x * y
  {
  }

  lemma QuotientZero(v: nat, lim: nat)
    requires lim >= 1
    ensures 0 <= v / lim && (v / lim == 0 <==> v < lim) && Rest(v, lim, 0) == v
  {
  }

  lemma Subtracted(v0: nat, lim: nat, digit: nat)
    requires lim >= 1 && Rest(v0, lim, digit) >= lim && v0 < U64_LIMIT
    ensures digit < v0 / lim
    ensures 0 <= Sub64(Rest(v0, lim, digit), lim) == Rest(v0, lim, digit + 1) == Rest(v0, lim, digit) - lim
  {
    assert (digit + 1) * lim == digit * lim + lim;
    DivBelow(digit + 1, lim, v0);
  }

  lemma DivBelow(d: nat, lim: nat, v: nat)
    requires lim >= 1 && d * lim <= v
    ensures d <= v / lim
  {
    var q, r := v / lim, v % lim;
    assert v == q * lim + r;
    if d > q {
      MulMonotone(q + 1, d, lim, lim);
    }
  }

  lemma Exhausted(v0: nat, lim: nat, digit: nat)
    requires lim >= 1 && digit <= v0 / lim && Rest(v0, lim, digit) < lim
    ensures digit == v0 / lim
  {
    var q, r := v0 / lim, v0 % lim;
    assert v0 == q * lim + r;
    if digit < q {
      MulMonotone(digit + 1, q, lim, lim);
    }
  }

  /** The base a call of `u64tostr` asks for, if it is supported; 0 asks for decimal. */
  function RequestedBase(base: int): Option<nat> {
    if base == 0 then Some(10) else if base in {2, 8, 10, 16, 36} then Some(base) else None
  }

  /** The text `u64tostr` writes, empty for an unsupported base. */
  function U64Text(value: nat, base: int): (t: seq<CChar>) {
    match RequestedBase(base)
    case Some(b) => Text(value, b)
    case None => []
  }

  /** Base by base: 0 stands for 10, and nothing is written in a base that is not listed. */
  lemma SupportedBases(value: nat, base: int)
    ensures U64Text(value, 0) == U64Text(value, 10) == Text(value, 10)
    ensures U64Text(value, 2) == Text(value, 2) && U64Text(value, 8) == Text(value, 8)
    ensures U64Text(value, 16) == Text(value, 16) && U64Text(value, 36) == Text(value, 36)
    ensures base != 0 && base != 2 && base != 8 && base != 10 && base != 16 && base != 36 ==> U64Text(value, base) == []
  {
    hide Text;
  }

  method U64ToStr(value: nat, str: array<CChar>, off: nat, base: int) returns (n: nat)
    requires value < U64_LIMIT && off + |U64Text(value, base)| < str.Length
    modifies str
    ensures n == |U64Text(value, base)|
    ensures str[..] == Filled(old(str[..]), off, U64Text(value, base) + [0])
  {
    hide Text, Filled;
    if base == 0 {
      n := ToDecimal(value, str, off);
    } else if base == 2 {
      BitwiseBases();
      n := BitwiseConvert(value, str, off, 1);
    } else if base == 8 {
      BitwiseBases();
      n := BitwiseConvert(value, str, off, 3);
    } else if base == 10 {
      n := ToDecimal(value, str, off);
    } else if base == 16 {
      BitwiseBases();
      n := BitwiseConvert(value, str, off, 4);
    } else if base == 36 {
      n := NaiveConvert(value, str, off, 36);
    } else {
      FilledStart(str[..], off);
      FilledNext(str[..], off, [], 0, str[..]);
      ghost var now := str[..];
      str[off] := 0;
      assert str[..] == now[off + 0 := 0];
      n := 0;
    }
  }

  lemma FilledContent(was: seq<CChar>, off: nat, t: seq<CChar>)
    requires off + |t| < |was| && 0 !in t
    ensures var now := Filled(was, off, t + [0]);
            && Content(now[off..]) == t
            && now[..off] == was[..off]
            && now[off + |t| + 1..] == was[off + |t| + 1..]
  {
    var rest := Filled(was, off, t + [0])[off..];
    assert rest == t + [0] + was[off + |t| + 1..];
    assert rest[..|t|] == t;
    UpToIs(rest, 0, |t|);
  }

  /** What a caller can rely on after `u64tostr`: the string in the buffer reads back as the
      value and every other character is as it was. */
  lemma ConvertedReadsBack(was: seq<CChar>, off: nat, value: nat, base: int)
    requires RequestedBase(base).Some? && off + |U64Text(value, base)| < |was|
    ensures var now, n := Filled(was, off, U64Text(value, base) + [0]), |U64Text(value, base)|;
            && |Content(now[off..])| == n
            && Parse(Content(now[off..]), RequestedBase(base).value) == Some(value)
            && now[..off] == was[..off]
            && now[off + n + 1..] == was[off + n + 1..]
  {
    hide Filled, Text, Content, Parse;
    TextShape(value, RequestedBase(base).value);
    TextRoundTrip(value, RequestedBase(base).value);
    FilledContent(was, off, U64Text(value, base));
  }

  lemma {:induction false} CompareFirst(s: seq<CChar>, t: seq<CChar>, n: nat, i: nat)
    requires IsReadable(s, n) && IsReadable(t, n)
    requires i < n && i < |s| && i < |t| && s[..i] == t[..i] && 0 !in s[..i] && s[i] != t[i]
    ensures Compare(s, t, n) == s[i] as int - t[i] as int
  {
    if i > 0 {
      assert s[0] == s[..i][0] && t[0] == t[..i][0];
      assert s[1..][..i - 1] == s[..i][1..] && t[1..][..i - 1] == t[..i][1..];
      CompareFirst(s[1..], t[1..], n - 1, i - 1);
    }
  }

  /** A buffer holds a NUL-terminated string. */
  predicate HoldsString(s: seq<CChar>, t: seq<CChar>) { Content(s) == t && |t| < |s| }

  /** In a fixed base, strings of numbers are ordered like the numbers: by length, then by
      `strncmp`. */
  lemma OrderEmbedding(m: nat, n: nat, b: nat, s: seq<CChar>, t: seq<CChar>, size: nat)
    requires 2 <= b <= 36 && HoldsString(s, Text(m, b)) && HoldsString(t, Text(n, b)) && size >= |Text(m, b)|
    ensures IsReadable(s, size) && IsReadable(t, size)
    ensures m < n <==>
      || |Text(m, b)| < |Text(n, b)|
      || (|Text(m, b)| == |Text(n, b)| && Compare(s, t, size) < 0)
  {
    var xs, ys := Numeral(m, b), Numeral(n, b);
    assert s[|xs|] == 0 && t[|ys|] == 0;
    NumeralSound(m, b);
    NumeralSound(n, b);
    hide Numeral, Value, Compare;
    if |xs| < |ys| {
      LengthOrder(m, n, b);
    } else if |xs| > |ys| {
      LengthOrder(n, m, b);
    } else {
      var i := FirstDifference(xs, ys);
      if xs == ys {
        CompareZero(s, t, size);
      } else {
        DigitOrder(xs, ys, b, i);
        TextOrder(xs, ys, i, s, t, size);
      }
    }
  }

  lemma TextOrder(xs: seq<nat>, ys: seq<nat>, i: nat, s: seq<CChar>, t: seq<CChar>, size: nat)
    requires DifferAt(xs, ys, i) && size >= |xs|
    requires forall j :: 0 <= j < |xs| ==> xs[j] < 36 && ys[j] < 36
    requires HoldsString(s, Chars(xs)) && HoldsString(t, Chars(ys))
    requires IsReadable(s, size) && IsReadable(t, size)
    ensures Compare(s, t, size) < 0 <==> xs[i] < ys[i]
  {
    assert s[..i] == t[..i] by {
      forall k | 0 <= k < i ensures s[k] == t[k] {
        assert xs[..i][k] == ys[..i][k] && s[k] == Chars(xs)[k] && t[k] == Chars(ys)[k];
      }
    }
    assert s[i] == Chars(xs)[i] && t[i] == Chars(ys)[i];
    CompareFirst(s, t, size, i);
  }
}
