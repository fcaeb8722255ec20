/** Reference definitions of the two encoding forms the console translates between. */
module Unicode {
  const LF: bv16 := 10
  const CR: bv16 := 13

  /** A Unicode scalar value: a code point that is not a surrogate. */
  predicate IsScalar(c: bv32) {
    c <= 0x10ffff && !(0xd800 <= c <= 0xdfff)
  }

  /** The code points the decoder lets through.  Its surrogate test looks at the low
      16 bits only, so it also shuts out U+1D800..U+1DFFF and the same slot of every
      higher plane. */
  predicate IsAccepted(c: bv32) {
    c <= 0x10ffff && !IsMasked(c)
  }

  predicate IsMasked(c: bv32) { c & 0xf800 == 0xd800 }

  /** Section 3 of RFC 3629: the shortest-form octet sequence of a code point. */
  function Utf8(c: bv32): (s: seq<bv8>)
    requires c <= 0x10ffff
    ensures 1 <= |s| <= 4
  {
    if c < 0x80 then
      [c as bv8]
    else if c < 0x800 then
      [0xc0 | (c >> 6) as bv8, Trail(c)]
    else if c < 0x10000 then
      [0xe0 | (c >> 12) as bv8, Trail(c >> 6), Trail(c)]
    else
      [0xf0 | (c >> 18) as bv8, Trail(c >> 12), Trail(c >> 6), Trail(c)]
  }

  function Trail(c: bv32): bv8 {
    0x80 | (c & 0x3f) as bv8
  }

  /** Section 2.1 of RFC 2781: one word, or a surrogate pair. */
  function Utf16(c: bv32): (w: seq<bv16>)
    requires c <= 0x10ffff
    ensures 1 <= |w| <= 2
  {
    if c < 0x10000 then
      [c as bv16]
    else
      var u := c - 0x10000;
      [0xd800 | (u >> 10) as bv16, 0xdc00 | (u & 0x3ff) as bv16]
  }

  predicate IsHigh(w: bv16) { 0xd800 <= w <= 0xdbff }

  predicate IsLow(w: bv16) { 0xdc00 <= w <= 0xdfff }

  /** Every high surrogate is followed by a low one and every low one follows a high one. */
  ghost predicate WellFormed16(w: seq<bv16>) {
    && (forall i :: 0 <= i < |w| && IsHigh(w[i]) ==> i + 1 < |w| && IsLow(w[i + 1]))
    && (forall i :: 0 <= i < |w| && IsLow(w[i]) ==> 0 < i && IsHigh(w[i - 1]))
  }

  /** `s` starts with the shortest form of the accepted multi-octet code point `c`. */
  ghost predicate Starts(s: seq<bv8>, c: bv32) {
    0x80 <= c && IsAccepted(c) && Utf8(c) <= s
  }

  /** The octet's first zero bit is bit 5, 4 or 3: a lead octet of a 2, 3 or 4 octet form. */
  predicate IsLead(b: bv8, k: nat) {
    || (k == 2 && b & 0xe0 == 0xc0)
    || (k == 3 && b & 0xf0 == 0xe0)
    || (k == 4 && b & 0xf8 == 0xf0)
  }

  predicate IsTrail(b: bv8) { b & 0xc0 == 0x80 }

  /** The number of trailing octets in the shortest form of `c`. */
  function Trailing(c: bv32): nat {
    (if c >= 0x80 then 1 else 0) + (if c >= 0x800 then 1 else 0) + (if c >= 0x10000 then 1 else 0)
  }

  /** Makes room for six bits and fills it. */
  function Push6(c: bv32, bits: bv8): bv32 {
    (c << 6) | bits as bv32
  }

  function Append6(c: bv32, b: bv8): bv32 {
    Push6(c, b & 0x3f)
  }

  /** The payload bits of a lead octet and of the trailing octets after it. */
  function Payload2(b0: bv8, b1: bv8): bv32 {
    Append6((b0 & 0x1f) as bv32, b1)
  }

  function Payload3(b0: bv8, b1: bv8, b2: bv8): bv32 {
    Append6(Append6((b0 & 0x0f) as bv32, b1), b2)
  }

  function Payload4(b0: bv8, b1: bv8, b2: bv8, b3: bv8): bv32 {
    Append6(Append6(Append6((b0 & 0x07) as bv32, b1), b2), b3)
  }

  lemma Split2(c: bv32)
    requires 0x80 <= c < 0x800
    ensures var b0, b1 := 0xc0 | (c >> 6) as bv8, Trail(c);
            IsLead(b0, 2) && IsTrail(b1) && Payload2(b0, b1) == c
  {
  }

  lemma Split3(c: bv32)
    requires 0x800 <= c < 0x10000
    ensures var b0, b1, b2 := 0xe0 | (c >> 12) as bv8, Trail(c >> 6), Trail(c);
            IsLead(b0, 3) && IsTrail(b1) && IsTrail(b2) && Payload3(b0, b1, b2) == c
  {
  }

  lemma Split4(c: bv32)
    requires 0x10000 <= c <= 0x10ffff
    ensures var b0, b1, b2, b3 := 0xf0 | (c >> 18) as bv8, Trail(c >> 12), Trail(c >> 6), Trail(c);
            IsLead(b0, 4) && IsTrail(b1) && IsTrail(b2) && IsTrail(b3) && Payload4(b0, b1, b2, b3) == c
  {
  }

  lemma Bits2(b0: bv8, b1: bv8, c: bv32)
    requires IsLead(b0, 2) && IsTrail(b1)
    requires c == Payload2(b0, b1) && 0x80 <= c
    ensures c < 0x800 && b0 == 0xc0 | (c >> 6) as bv8 && b1 == Trail(c)
  {
  }

  lemma Form2(b0: bv8, b1: bv8, c: bv32)
    requires 0x80 <= c < 0x800
    requires b0 == 0xc0 | (c >> 6) as bv8 && b1 == Trail(c)
    ensures Utf8(c) == [b0, b1]
  {
  }

  lemma Join2(b0: bv8, b1: bv8, c: bv32)
    requires IsLead(b0, 2) && IsTrail(b1)
    requires c == Payload2(b0, b1) && 0x80 <= c
    ensures c < 0x800 && Utf8(c) == [b0, b1]
  {
    Bits2(b0, b1, c);
    Form2(b0, b1, c);
  }

  lemma Bits3(b0: bv8, b1: bv8, b2: bv8, c: bv32)
    requires IsLead(b0, 3) && IsTrail(b1) && IsTrail(b2)
    requires c == Payload3(b0, b1, b2) && 0x800 <= c
    ensures c < 0x10000 && b0 == 0xe0 | (c >> 12) as bv8 && b1 == Trail(c >> 6) && b2 == Trail(c)
  {
  }

  lemma Form3(b0: bv8, b1: bv8, b2: bv8, c: bv32)
    requires 0x800 <= c < 0x10000
    requires b0 == 0xe0 | (c >> 12) as bv8 && b1 == Trail(c >> 6) && b2 == Trail(c)
    ensures Utf8(c) == [b0, b1, b2]
  {
  }

  lemma Join3(b0: bv8, b1: bv8, b2: bv8, c: bv32)
    requires IsLead(b0, 3) && IsTrail(b1) && IsTrail(b2)
    requires c == Payload3(b0, b1, b2) && 0x800 <= c
    ensures c < 0x10000 && Utf8(c) == [b0, b1, b2]
  {
    Bits3(b0, b1, b2, c);
    Form3(b0, b1, b2, c);
  }

  lemma Bits4(b0: bv8, b1: bv8, b2: bv8, b3: bv8, c: bv32)
    requires IsLead(b0, 4) && IsTrail(b1) && IsTrail(b2) && IsTrail(b3)
    requires c == Payload4(b0, b1, b2, b3) && 0x10000 <= c && c <= 0x10ffff
    ensures b0 == 0xf0 | (c >> 18) as bv8 && b1 == Trail(c >> 12) && b2 == Trail(c >> 6) && b3 == Trail(c)
  {
  }

  lemma Form4(b0: bv8, b1: bv8, b2: bv8, b3: bv8, c: bv32)
    requires 0x10000 <= c <= 0x10ffff
    requires b0 == 0xf0 | (c >> 18) as bv8 && b1 == Trail(c >> 12) && b2 == Trail(c >> 6) && b3 == Trail(c)
    ensures Utf8(c) == [b0, b1, b2, b3]
  {
  }

  lemma Join4(b0: bv8, b1: bv8, b2: bv8, b3: bv8, c: bv32)
    requires IsLead(b0, 4) && IsTrail(b1) && IsTrail(b2) && IsTrail(b3)
    requires c == Payload4(b0, b1, b2, b3) && 0x10000 <= c && c <= 0x10ffff
    ensures Utf8(c) == [b0, b1, b2, b3]
  {
    Bits4(b0, b1, b2, b3, c);
    Form4(b0, b1, b2, b3, c);
  }

  /** The only code point an octet string can start with is the one its payload bits spell. */
  lemma StartsForces(s: seq<bv8>, c: bv32)
    requires Starts(s, c)
    ensures IsLead(s[0], |Utf8(c)|)
    ensures forall j :: 0 < j < |Utf8(c)| ==> IsTrail(s[j])
    ensures |Utf8(c)| == 2 ==> c == Payload2(s[0], s[1])
    ensures |Utf8(c)| == 3 ==> c == Payload3(s[0], s[1], s[2])
    ensures |Utf8(c)| == 4 ==> c == Payload4(s[0], s[1], s[2], s[3])
  {
    var u := Utf8(c);
    assert forall j :: 0 <= j < |u| ==> s[j] == u[j];
    if c < 0x800 {
      Split2(c);
    } else if c < 0x10000 {
      Split3(c);
    } else {
      Split4(c);
    }
  }

  /** What one decoding step has to return: the code point whose shortest form comes next
      and the length of that form, or else one raw octet. */
  ghost function Step(s: seq<bv8>): (r: (bv32, nat))
    requires s != []
    ensures 1 <= r.1 <= |s| && r.1 <= 4
  {
    if exists c :: Starts(s, c) then
      var c :| Starts(s, c);
      (c, |Utf8(c)|)
    else
      (s[0] as bv32, 1)
  }

  lemma StepIs(s: seq<bv8>, c: bv32)
    requires Starts(s, c)
    ensures Step(s) == (c, |Utf8(c)|)
  {
    forall d | Starts(s, d) ensures d == c {
      StartsForces(s, c);
      StartsForces(s, d);
    }
  }

  /** Which code points get through, in numbers: none whose low 16 bits are those of a surrogate. */
  lemma AcceptedIs(c: bv32)
    ensures IsAccepted(c) <==> c <= 0x10ffff && (c & 0xffff < 0xd800 || c & 0xffff > 0xdfff)
    ensures IsScalar(c) ==> (IsAccepted(c) <==> c < 0x1_0000 || c & 0xffff < 0xd800 || c & 0xffff > 0xdfff)
  {
  }

  lemma StartsIs(s: seq<bv8>, c: bv32)
    ensures Starts(s, c) <==>
            0x80 <= c <= 0x10ffff && (c & 0xffff < 0xd800 || c & 0xffff > 0xdfff) && Utf8(c) <= s
  {
    hide IsAccepted, Utf8;
    AcceptedIs(c);
  }

  /** A step of two octets or more is exactly the shortest form of a code point that gets through;
      a step of one octet is exactly the absence of any, and returns the octet. */
  lemma StepExact(s: seq<bv8>, c: bv32, k: nat)
    requires s != []
    ensures k != 1 ==>
      (Step(s) == (c, k) <==>
         0x80 <= c <= 0x10ffff && (c & 0xffff < 0xd800 || c & 0xffff > 0xdfff)
         && Utf8(c) <= s && k == |Utf8(c)|)
    ensures k == 1 ==>
      (Step(s) == (c, k) <==>
         c == s[0] as bv32
         && forall d: bv32 :: 0x80 <= d <= 0x10ffff && (d & 0xffff < 0xd800 || d & 0xffff > 0xdfff) ==>
              !(Utf8(d) <= s))
  {
    hide *;
    StepStarts(s, c, k);
    StartsIs(s, c);
    forall d: bv32 ensures Starts(s, d) <==>
        0x80 <= d <= 0x10ffff && (d & 0xffff < 0xd800 || d & 0xffff > 0xdfff) && Utf8(d) <= s
    {
      StartsIs(s, d);
    }
  }

  lemma StepStarts(s: seq<bv8>, c: bv32, k: nat)
    requires s != []
    ensures k != 1 ==> (Step(s) == (c, k) <==> Starts(s, c) && k == |Utf8(c)|)
    ensures k == 1 ==> (Step(s) == (c, k) <==> c == s[0] as bv32 && forall d :: !Starts(s, d))
  {
    hide Utf8, IsMasked, IsLead, IsTrail, Payload2, Payload3, Payload4;
    forall d | Starts(s, d) ensures Step(s) == (d, |Utf8(d)|) && |Utf8(d)| >= 2 {
      StepIs(s, d);
      StartsForces(s, d);
      LeadIsLong(s[0], |Utf8(d)|);
    }
  }

  /** The examples of section 7 of RFC 3629 and of section 3 of RFC 2781, and the emoji U+1F600. */
  lemma Examples()
    ensures Utf8(0x41) == [0x41] && Utf8(0x391) == [0xce, 0x91] && Utf8(0x2262) == [0xe2, 0x89, 0xa2]
    ensures Utf8(0x233b4) == [0xf0, 0xa3, 0x8e, 0xb4] && Utf8(0x1f600) == [0xf0, 0x9f, 0x98, 0x80]
    ensures Utf16(0x12345) == [0xd808, 0xdf45] && Utf16(0x233b4) == [0xd84c, 0xdfb4]
    ensures Step([0xf0, 0x9f, 0x98, 0x80]) == (0x1f600, 4)
  {
    assert Starts([0xf0, 0x9f, 0x98, 0x80], 0x1f600);
    StepIs([0xf0, 0x9f, 0x98, 0x80], 0x1f600);
  }

  lemma LeadIsLong(b: bv8, k: nat)
    requires IsLead(b, k)
    ensures k >= 2
  {
  }
}
