/** What the probing loop prints for the register layouts the PCI specification allows. */
module PciLayout {
  import opened PciBar
  import opened Sequences

  /** A base address register pair or single, by what it decodes.  Sizes are powers of two and
      bases are multiples of the size. */
  datatype Bar =
    | Absent
    | Io(size: bv64, base: bv64)
    | Mem32(size: bv64, base: bv64, below1M: bool, prefetch: bool)
    | Mem64(size: bv64, base: bv64, prefetch: bool)

  predicate IsPowerOfTwo(size: bv64) { size != 0 && size & (size - 1) == 0 }

  predicate IsAligned(size: bv64, base: bv64) { IsPowerOfTwo(size) && base & (size - 1) == 0 }

  predicate IsBar(b: Bar) {
    match b
    case Absent => true
    case Io(size, base) => 4 <= size <= 0x8000_0000 && base <= 0xffff_ffff && IsAligned(size, base)
    case Mem32(size, base, _, _) => 16 <= size <= 0x8000_0000 && base <= 0xffff_ffff && IsAligned(size, base)
    case Mem64(size, base, _) => 16 <= size && IsAligned(size, base)
  }

  function Low(x: bv64): bv32 { (x & 0xffff_ffff) as bv32 }

  function High(x: bv64): bv32 { (x >> 32) as bv32 }

  /** The bits that select an address: all above the size. */
  function AddressMask(size: bv64): bv64 { !(size - 1) }

  function Flags(below1M: bool, prefetch: bool): bv32 {
    (if below1M then 2 else 0) | (if prefetch then 8 else 0)
  }

  /** A register of a BAR with its writable address bits, of which there are none below the size,
      and its fixed bits. */
  function LowerReg(size: bv64, base: bv64, f: bv32): Reg { Reg(Low(base) | f, Low(AddressMask(size))) }

  /** The register after it, if the BAR has 64 bits. */
  function UpperReg(size: bv64, base: bv64): Reg { Reg(High(base), High(AddressMask(size))) }

  function Flags64(prefetch: bool): bv32 { 4 | Flags(false, prefetch) }

  /** The registers of a BAR: writable address bits above the size, type bits that are fixed. */
  function Registers(b: Bar): (r: seq<Reg>)
    ensures 1 <= |r| <= 2 && (|r| == 2 <==> b.Mem64?)
  {
    match b
    case Absent => [Reg(0, 0)]
    case Io(size, base) => [LowerReg(size, base, 1)]
    case Mem32(size, base, below1M, prefetch) => [LowerReg(size, base, Flags(below1M, prefetch))]
    case Mem64(size, base, prefetch) => [LowerReg(size, base, Flags64(prefetch)), UpperReg(size, base)]
  }

  /** What a correct listing says of a BAR at a slot, if its register is not zero. */
  function Described(b: Bar, slot: nat): (r: seq<Line>)
    ensures |r| <= 1 && (r != [] ==> r[0].bar == slot)
  {
    match b
    case Absent => []
    case Io(size, base) => [Line(slot, false, false, false, base, size)]
    case Mem32(size, base, below1M, prefetch) =>
      if base == 0 && !below1M && !prefetch then [] else [Line(slot, true, false, prefetch, base, size)]
    case Mem64(size, base, prefetch) => [Line(slot, true, true, prefetch, base, size)]
  }

  function AllRegisters(bars: seq<Bar>): seq<Reg> {
    if bars == [] then [] else Registers(bars[0]) + AllRegisters(bars[1..])
  }

  /** The correct listing: every BAR once and in order, but for those whose disabling write is
      refused. */
  function Listing(bars: seq<Bar>, slot: nat, refused: set<nat>): seq<Line> {
    if bars == [] then []
    else
      (if slot in refused then [] else Described(bars[0], slot))
      + Listing(bars[1..], slot + |Registers(bars[0])|, refused)
  }

  /** No 64-bit BAR is refused at its first slot but not at its second while the upper half of
      its base is in use. */
  predicate NoHalfRefused(bars: seq<Bar>, slot: nat, refused: set<nat>) {
    bars == []
    || ((bars[0].Mem64? && slot in refused ==> slot + 1 in refused || High(bars[0].base) == 0)
        && NoHalfRefused(bars[1..], slot + |Registers(bars[0])|, refused))
  }

  /** Bits of a register that are fixed. */
  predicate IsFlags(f: bv32) { f & 15 == f }

  predicate IsMemSize(s: bv64) { IsPowerOfTwo(s) && s >= 16 }

  lemma SizeBits(s: bv64)
    requires IsPowerOfTwo(s)
    ensures s >= 4 ==> (s - 1) & 3 == 3
    ensures s >= 16 ==> (s - 1) & 15 == 15
  {
  }

  lemma BaseBits(s: bv64, b: bv64)
    requires b & (s - 1) == 0
    ensures (s - 1) & 15 == 15 ==> b & 15 == 0
  {
  }

  lemma RawBackLow(s: bv64, b: bv64, f: bv32)
    requires b & (s - 1) == 0 && f & 15 == f && (s - 1) & 15 == 15
    ensures ReadBack(LowerReg(s, b, f)) == Low(AddressMask(s)) | f
  {
  }

  lemma RegsAre(s: bv64, b: bv64, f: bv32)
    ensures LowerReg(s, b, f).value == Low(b) | f
    ensures UpperReg(s, b).value == High(b) && UpperReg(s, b).mask == High(AddressMask(s))
  {
  }

  /** The fixed bits of the layouts, in numbers: 1 for I/O, 0, 2, 8 or 10 for 32-bit memory and 4 or
      12 for 64-bit memory.  None of them can be written. */
  lemma FixedBitsAre(b: Bar)
    requires IsBar(b)
    ensures var r := Registers(b)[0];
            match b
            case Absent => r.value == 0 && r.mask == 0
            case Io(_, _) => r.value & 3 == 1 && r.mask & 3 == 0
            case Mem32(_, _, below1M, prefetch) =>
              && r.mask & 15 == 0
              && r.value & 15 == if below1M then (if prefetch then 10 else 2) else if prefetch then 8 else 0
            case Mem64(_, _, prefetch) => r.mask & 15 == 0 && r.value & 15 == if prefetch then 12 else 4
  {
    hide *;
    var r := Registers(b)[0];
    match b {
      case Absent => RegistersAre(b);
      case Io(size, base) =>
        RegistersAre(b);
        FixedIo(size, base);
      case Mem32(size, base, below1M, prefetch) =>
        RegistersAre(b);
        BarBounds(b);
        FixedMem(size, base, Flags(below1M, prefetch));
        FlagsAre(below1M, prefetch);
      case Mem64(size, base, prefetch) =>
        RegistersAre(b);
        BarBounds(b);
        FixedMem(size, base, Flags64(prefetch));
        FlagsAre(false, prefetch);
    }
  }

  lemma RegistersAre(b: Bar)
    ensures Registers(b)[0] ==
            match b
            case Absent => Reg(0, 0)
            case Io(size, base) => LowerReg(size, base, 1)
            case Mem32(size, base, below1M, prefetch) => LowerReg(size, base, Flags(below1M, prefetch))
            case Mem64(size, base, prefetch) => LowerReg(size, base, Flags64(prefetch))
    ensures b == Absent ==> Registers(b)[0].value == 0 && Registers(b)[0].mask == 0
  {
    hide LowerReg, UpperReg, Flags, Flags64;
  }

  lemma FlagsAre(below1M: bool, prefetch: bool)
    ensures Flags(below1M, prefetch) & 15
            == if below1M then (if prefetch then 10 else 2) else if prefetch then 8 else 0
    ensures Flags64(prefetch) & 15 == if prefetch then 12 else 4
  {
  }

  lemma FixedIo(size: bv64, base: bv64)
    requires IsBar(Io(size, base))
    ensures var r := LowerReg(size, base, 1); r.value & 3 == 1 && r.mask & 3 == 0
  {
    hide LowerReg;
    SizeBits(size);
    RawFixedIo(size, base);
  }

  lemma RawFixedIo(s: bv64, b: bv64)
    requires (s - 1) & 3 == 3 && b & (s - 1) == 0
    ensures LowerReg(s, b, 1).value & 3 == 1 && LowerReg(s, b, 1).mask & 3 == 0
  {
  }

  lemma FixedMem(s: bv64, b: bv64, f: bv32)
    requires IsMemSize(s) && IsAligned(s, b)
    ensures LowerReg(s, b, f).value & 15 == f & 15 && LowerReg(s, b, f).mask & 15 == 0
  {
    hide LowerReg;
    SizeBits(s);
    RawFixedMem(s, b, f);
  }

  lemma RawFixedMem(s: bv64, b: bv64, f: bv32)
    requires (s - 1) & 15 == 15 && b & (s - 1) == 0
    ensures LowerReg(s, b, f).value & 15 == f & 15 && LowerReg(s, b, f).mask & 15 == 0
  {
  }

  /** A register reads back as its address mask with its fixed bits. */
  lemma BackLow(s: bv64, b: bv64, f: bv32)
    requires IsMemSize(s) && IsAligned(s, b) && IsFlags(f)
    ensures ReadBack(LowerReg(s, b, f)) == Low(AddressMask(s)) | f
  {
    SizeBits(s);
    RawBackLow(s, b, f);
  }

  lemma BackHigh(s: bv64, b: bv64)
    requires IsAligned(s, b)
    ensures ReadBack(UpperReg(s, b)) == High(AddressMask(s))
  {
  }

  lemma RawAddr32(b: bv64, f: bv32)
    requires f & 15 == f && b & 15 == 0 && b <= 0xffff_ffff
    ensures MemAddr(Low(b) | f) == b
  {
  }

  lemma Addr32(s: bv64, b: bv64, f: bv32)
    requires IsMemSize(s) && IsAligned(s, b) && IsFlags(f) && b <= 0xffff_ffff
    ensures MemAddr(Low(b) | f) == b
  {
    SizeBits(s);
    BaseBits(s, b);
    RawAddr32(b, f);
  }

  lemma RawSize32(s: bv64, f: bv32)
    requires f & 15 == f && (s - 1) & 15 == 15 && 16 <= s <= 0x8000_0000
    ensures Size(MemLimit(Low(AddressMask(s)) | f)) == s
  {
  }

  lemma Size32(s: bv64, f: bv32)
    requires IsMemSize(s) && s <= 0x8000_0000 && IsFlags(f)
    ensures Size(MemLimit(Low(AddressMask(s)) | f)) == s
  {
    SizeBits(s);
    RawSize32(s, f);
  }

  lemma RawAddr64(b: bv64, f: bv32)
    requires f & 15 == f && b & 15 == 0
    ensures OrHigh(MemAddr(Low(b) | f), High(b)) == b
  {
  }

  lemma Addr64(s: bv64, b: bv64, f: bv32)
    requires IsMemSize(s) && IsAligned(s, b) && IsFlags(f)
    ensures OrHigh(MemAddr(Low(b) | f), High(b)) == b
  {
    SizeBits(s);
    BaseBits(s, b);
    RawAddr64(b, f);
  }

  lemma RawSize64(s: bv64, f: bv32)
    requires f & 15 == f && (s - 1) & 15 == 15 && s >= 16
    ensures Size(OrHigh(MemLimit(Low(AddressMask(s)) | f), Inverted(High(AddressMask(s))))) == s
  {
  }

  lemma Size64(s: bv64, f: bv32)
    requires IsMemSize(s) && IsFlags(f)
    ensures Size(OrHigh(MemLimit(Low(AddressMask(s)) | f), Inverted(High(AddressMask(s))))) == s
  {
    SizeBits(s);
    RawSize64(s, f);
  }

  lemma RawValueBits(b: bv64, f: bv32)
    requires b & 15 == 0 && f & 15 == f
    ensures IsIo(Low(b) | f) == IsIo(f)
    ensures Low(b) | f == 0 <==> Low(b) == 0 && f == 0
    ensures b <= 0xffff_ffff ==> (Low(b) == 0 <==> b == 0)
  {
  }

  lemma RawMaskBits(s: bv64, f: bv32)
    requires (s - 1) & 15 == 15 && f & 15 == f
    ensures Is64(Low(AddressMask(s)) | f) == Is64(f)
    ensures IsPrefetchable(Low(AddressMask(s)) | f) == IsPrefetchable(f)
  {
  }

  /** The type bits show in the register and in what it reads back as. */
  lemma TypeBits(s: bv64, b: bv64, f: bv32)
    requires IsMemSize(s) && IsAligned(s, b) && IsFlags(f)
    ensures IsIo(Low(b) | f) == IsIo(f)
    ensures Is64(Low(AddressMask(s)) | f) == Is64(f)
    ensures IsPrefetchable(Low(AddressMask(s)) | f) == IsPrefetchable(f)
    ensures Low(b) | f == 0 <==> Low(b) == 0 && f == 0
    ensures b <= 0xffff_ffff ==> (Low(b) == 0 <==> b == 0)
  {
    hide IsIo, Is64, IsPrefetchable, Low, AddressMask;
    SizeBits(s);
    BaseBits(s, b);
    RawValueBits(b, f);
    RawMaskBits(s, f);
  }

  lemma FlagBits(below1M: bool, prefetch: bool)
    ensures var f := Flags(below1M, prefetch);
            && IsFlags(f) && !IsIo(f) && !Is64(f) && IsPrefetchable(f) == prefetch
            && (f == 0 <==> !below1M && !prefetch)
  {
  }

  lemma FlagBits64(prefetch: bool)
    ensures var f := Flags64(prefetch);
            IsFlags(f) && !IsIo(f) && Is64(f) && IsPrefetchable(f) == prefetch && f != 0
  {
  }

  lemma RawIo(s: bv64, b: bv64)
    requires (s - 1) & 3 == 3 && b & (s - 1) == 0 && b <= 0xffff_ffff && 4 <= s <= 0x8000_0000
    ensures IsIo(Low(b) | 1) && Low(b) | 1 != 0 && IoAddr(Low(b) | 1) == b
  {
  }

  lemma RawIoBack(s: bv64, b: bv64)
    requires (s - 1) & 3 == 3 && b & (s - 1) == 0
    ensures ReadBack(LowerReg(s, b, 1)) == Low(AddressMask(s)) | 1
  {
  }

  lemma RawIoSize(s: bv64)
    requires (s - 1) & 3 == 3 && 4 <= s <= 0x8000_0000
    ensures IoSize(Low(AddressMask(s)) | 1) == s
  {
  }

  /** An I/O BAR: the address and the size come out. */
  lemma IoArithmetic(size: bv64, base: bv64)
    requires IsBar(Io(size, base))
    ensures var r := LowerReg(size, base, 1);
            IsIo(r.value) && IoAddr(r.value) == base && IoSize(ReadBack(r)) == size && size > 0 && r.value != 0
  {
    hide IsIo, IoAddr, IoSize, ReadBack, Low, AddressMask, LowerReg;
    RegsAre(size, base, 1);
    SizeBits(size);
    RawIo(size, base);
    RawIoBack(size, base);
    RawIoSize(size);
  }

  /** A 32-bit memory BAR with the fixed bits `f`: kind, address and size come out. */
  lemma Mem32Arithmetic(size: bv64, base: bv64, f: bv32)
    requires IsMemSize(size) && IsAligned(size, base) && IsFlags(f) && !IsIo(f) && !Is64(f)
    requires size <= 0x8000_0000 && base <= 0xffff_ffff
    ensures var r := LowerReg(size, base, f);
            && !IsIo(r.value) && !Is64(ReadBack(r)) && IsPrefetchable(ReadBack(r)) == IsPrefetchable(f)
            && MemAddr(r.value) == base && Size(MemLimit(ReadBack(r))) == size
            && (r.value == 0 <==> base == 0 && f == 0)
  {
    hide *;
    RegsAre(size, base, f);
    BackLow(size, base, f);
    TypeBits(size, base, f);
    Addr32(size, base, f);
    Size32(size, f);
  }

  lemma BarBounds(b: Bar)
    requires IsBar(b)
    ensures b.Mem32? || b.Mem64? ==> IsMemSize(b.size) && IsAligned(b.size, b.base) && b.size > 0
    ensures b.Mem32? ==> b.size <= 0x8000_0000 && b.base <= 0xffff_ffff
  {
  }

  /** A 64-bit memory BAR, however many address bits the lower register has. */
  lemma Mem64Arithmetic(size: bv64, base: bv64, f: bv32)
    requires IsMemSize(size) && IsAligned(size, base) && IsFlags(f) && !IsIo(f) && Is64(f) && f != 0
    ensures var r, h := LowerReg(size, base, f), UpperReg(size, base);
            && !IsIo(r.value) && Is64(ReadBack(r)) && IsPrefetchable(ReadBack(r)) == IsPrefetchable(f)
            && r.value != 0
            && OrHigh(MemAddr(r.value), h.value) == base
            && Size(OrHigh(MemLimit(ReadBack(r)), Inverted(ReadBack(h)))) == size
  {
    hide *;
    RegsAre(size, base, f);
    BackLow(size, base, f);
    BackHigh(size, base);
    TypeBits(size, base, f);
    Addr64(size, base, f);
    Size64(size, f);
  }

  /** The registers from `slot` on are those of the BARs, then one register that is none. */
  ghost predicate LaidOut(regs: seq<Reg>, slot: nat, bars: seq<Bar>) {
    && |regs| == 7 && slot + |AllRegisters(bars)| == 6
    && regs[slot..6] == AllRegisters(bars)
    && forall i :: 0 <= i < |bars| ==> IsBar(bars[i])
  }

  lemma LaidOutNext(regs: seq<Reg>, slot: nat, bars: seq<Bar>)
    requires LaidOut(regs, slot, bars) && bars != []
    ensures var r := Registers(bars[0]);
            && slot + |r| <= 6 && regs[slot..slot + |r|] == r && IsBar(bars[0])
            && LaidOut(regs, slot + |r|, bars[1..])
  {
    hide Registers, IsBar;
    var r, rest := Registers(bars[0]), AllRegisters(bars[1..]);
    assert AllRegisters(bars) == r + rest;
    SliceConcat(regs, slot, r, rest);
  }

  lemma ProbeIo(regs: seq<Reg>, slot: nat, size: bv64, base: bv64)
    requires |regs| == 7 && slot < 6 && IsBar(Io(size, base))
    requires regs[slot] == LowerReg(size, base, 1)
    ensures regs[slot].value != 0 && size > 0
    ensures Probe(regs, slot, QUIET) == (Line(slot, false, false, false, base, size), slot + 1)
  {
    hide *;
    IoArithmetic(size, base);
    QuietProbe(regs, slot);
  }

  lemma ProbeMem32(regs: seq<Reg>, slot: nat, size: bv64, base: bv64, below1M: bool, prefetch: bool)
    requires |regs| == 7 && slot < 6 && IsBar(Mem32(size, base, below1M, prefetch))
    requires regs[slot] == LowerReg(size, base, Flags(below1M, prefetch))
    ensures size > 0 && (regs[slot].value == 0 <==> base == 0 && !below1M && !prefetch)
    ensures Probe(regs, slot, QUIET) == (Line(slot, true, false, prefetch, base, size), slot + 1)
  {
    hide *;
    BarBounds(Mem32(size, base, below1M, prefetch));
    FlagBits(below1M, prefetch);
    Mem32Arithmetic(size, base, Flags(below1M, prefetch));
    QuietProbe(regs, slot);
  }

  lemma ProbeMem64(regs: seq<Reg>, slot: nat, size: bv64, base: bv64, prefetch: bool)
    requires |regs| == 7 && slot < 6 && IsBar(Mem64(size, base, prefetch))
    requires regs[slot] == LowerReg(size, base, Flags64(prefetch))
    requires regs[slot + 1] == UpperReg(size, base)
    ensures size > 0 && regs[slot].value != 0
    ensures Probe(regs, slot, QUIET) == (Line(slot, true, true, prefetch, base, size), slot + 2)
  {
    hide *;
    BarBounds(Mem64(size, base, prefetch));
    FlagBits64(prefetch);
    Mem64Arithmetic(size, base, Flags64(prefetch));
    QuietProbe(regs, slot);
  }

  /** Probing a BAR at `slot` gives its description, if its register is not zero, and goes on
      after it. */
  ghost predicate ProbesRight(regs: seq<Reg>, slot: nat, b: Bar) {
    && |regs| == 7 && slot < 6
    && (regs[slot].value == 0 <==> Described(b, slot) == [])
    && (regs[slot].value != 0 ==>
          && Probe(regs, slot, QUIET) == (Described(b, slot)[0], slot + |Registers(b)|)
          && Described(b, slot)[0].size > 0)
    && (b.Mem64? ==> regs[slot].value != 0 && regs[slot + 1] == UpperReg(b.size, b.base))
  }

  lemma IoProbesRight(regs: seq<Reg>, slot: nat, size: bv64, base: bv64)
    requires |regs| == 7 && slot < 6 && IsBar(Io(size, base)) && [regs[slot]] == Registers(Io(size, base))
    ensures ProbesRight(regs, slot, Io(size, base))
  {
    hide Probe, LowerReg, UpperReg, Flags, Flags64, IsBar;
    ProbeIo(regs, slot, size, base);
  }

  lemma Mem32ProbesRight(regs: seq<Reg>, slot: nat, size: bv64, base: bv64, below1M: bool, prefetch: bool)
    requires |regs| == 7 && slot < 6 && IsBar(Mem32(size, base, below1M, prefetch))
    requires [regs[slot]] == Registers(Mem32(size, base, below1M, prefetch))
    ensures ProbesRight(regs, slot, Mem32(size, base, below1M, prefetch))
  {
    hide Probe, LowerReg, UpperReg, Flags, Flags64, IsBar;
    ProbeMem32(regs, slot, size, base, below1M, prefetch);
  }

  lemma Mem64ProbesRight(regs: seq<Reg>, slot: nat, size: bv64, base: bv64, prefetch: bool)
    requires |regs| == 7 && slot < 5 && IsBar(Mem64(size, base, prefetch))
    requires [regs[slot], regs[slot + 1]] == Registers(Mem64(size, base, prefetch))
    ensures ProbesRight(regs, slot, Mem64(size, base, prefetch))
  {
    hide Probe, LowerReg, UpperReg, Flags, Flags64, IsBar;
    ProbeMem64(regs, slot, size, base, prefetch);
  }

  lemma AbsentProbesRight(regs: seq<Reg>, slot: nat)
    requires |regs| == 7 && slot < 6 && [regs[slot]] == Registers(Absent)
    ensures ProbesRight(regs, slot, Absent)
  {
  }

  lemma ProbeDescribes(regs: seq<Reg>, slot: nat, b: Bar)
    requires |regs| == 7 && slot + |Registers(b)| <= 6 && regs[slot..slot + |Registers(b)|] == Registers(b)
    requires IsBar(b)
    ensures ProbesRight(regs, slot, b)
  {
    hide *;
    var r := Registers(b);
    assert |r| == 1 ==> regs[slot..slot + 1] == [regs[slot]];
    assert |r| == 2 ==> regs[slot..slot + 2] == [regs[slot], regs[slot + 1]];
    match b {
      case Absent => AbsentProbesRight(regs, slot);
      case Io(size, base) => IoProbesRight(regs, slot, size, base);
      case Mem32(size, base, below1M, prefetch) => Mem32ProbesRight(regs, slot, size, base, below1M, prefetch);
      case Mem64(size, base, prefetch) => Mem64ProbesRight(regs, slot, size, base, prefetch);
    }
  }

  predicate HasTopBit(x: bv32) { x & 0x8000_0000 != 0 }

  lemma TopReadsBack(r: Reg)
    requires HasTopBit(r.mask)
    ensures HasTopBit(ReadBack(r))
  {
  }

  lemma IoPositive(back: bv32)
    requires HasTopBit(back)
    ensures IoSize(back) > 0
  {
  }

  lemma MemPositive(back: bv32)
    requires HasTopBit(back)
    ensures Size(MemLimit(back)) > 0
  {
  }

  lemma WidePositive(back: bv32, high: bv32)
    requires HasTopBit(back)
    ensures Size(OrHigh(MemLimit(back), high)) > 0
  {
  }

  /** The upper half of a 64-bit BAR, probed as a BAR of its own, is always printed. */
  lemma UpperHalfPrinted(regs: seq<Reg>, i: nat)
    requires |regs| == 7 && i < 6 && HasTopBit(regs[i].mask)
    ensures Probe(regs, i, QUIET).0.bar == i && Probe(regs, i, QUIET).0.size > 0
  {
    hide *;
    var back := ReadBack(regs[i]);
    QuietProbe(regs, i);
    TopReadsBack(regs[i]);
    IoPositive(back);
    MemPositive(back);
    WidePositive(back, Inverted(ReadBack(regs[i + 1])));
  }

  lemma HighMask(size: bv64)
    requires IsPowerOfTwo(size)
    ensures HasTopBit(High(AddressMask(size)))
  {
  }

  lemma {:induction false} ListingFrom(bars: seq<Bar>, slot: nat, refused: set<nat>)
    ensures forall l :: l in Listing(bars, slot, refused) ==> l.bar >= slot
  {
    if bars != [] {
      hide Described, Registers;
      ListingFrom(bars[1..], slot + |Registers(bars[0])|, refused);
    }
  }

  lemma ListingUnfold(bars: seq<Bar>, slot: nat, refused: set<nat>)
    requires bars != []
    ensures var next := slot + |Registers(bars[0])|;
            && Listing(bars, slot, refused)
               == (if slot in refused then [] else Described(bars[0], slot)) + Listing(bars[1..], next, refused)
            && (NoHalfRefused(bars, slot, refused) <==>
                  (bars[0].Mem64? && slot in refused ==> slot + 1 in refused || High(bars[0].base) == 0)
                  && NoHalfRefused(bars[1..], next, refused))
  {
  }

  /** The walk when the first half of a 64-bit BAR is refused. */
  lemma HalfRefused(regs: seq<Reg>, slot: nat, bars: seq<Bar>, refused: set<nat>)
    requires LaidOut(regs, slot, bars) && bars != [] && bars[0].Mem64? && slot in refused
    ensures slot + 2 <= 6 && |Registers(bars[0])| == 2
    ensures if slot + 1 in refused || High(bars[0].base) == 0
            then Walk(regs, Refusals(refused), slot) == Walk(regs, Refusals(refused), slot + 2)
            else Walk(regs, Refusals(refused), slot) != Listing(bars[1..], slot + 2, refused)
  {
    hide *;
    var b := bars[0];
    TwoRegisters(b);
    LaidOutNext(regs, slot, bars);
    LaidOutSize(regs, slot, bars);
    ProbeDescribes(regs, slot, b);
    UpperRegister(regs, slot, b);
    WalkUnfold(regs, refused, slot);
    WalkUnfold(regs, refused, slot + 1);
    if !(slot + 1 in refused || High(b.base) == 0) {
      UpperHalfPrinted(regs, slot + 1);
      ListingFrom(bars[1..], slot + 2, refused);
      assert Walk(regs, Refusals(refused), slot)[0].bar == slot + 1;
    }
  }

  lemma TwoRegisters(b: Bar)
    ensures b.Mem64? <==> |Registers(b)| == 2
  {
  }

  lemma LaidOutSize(regs: seq<Reg>, slot: nat, bars: seq<Bar>)
    requires LaidOut(regs, slot, bars)
    ensures |regs| == 7 && slot <= 6 && (bars == [] ==> slot == 6)
  {
  }

  lemma UpperRegister(regs: seq<Reg>, slot: nat, b: Bar)
    requires b.Mem64? && IsBar(b) && ProbesRight(regs, slot, b)
    ensures |regs| == 7 && slot < 6
    ensures regs[slot + 1].value == High(b.base) && HasTopBit(regs[slot + 1].mask)
  {
    hide Probe, Described, High, AddressMask;
    HighMask(b.size);
  }

  lemma NotRefused(regs: seq<Reg>, slot: nat, b: Bar, refused: set<nat>)
    requires ProbesRight(regs, slot, b) && slot !in refused
    ensures |regs| == 7
    ensures Walk(regs, Refusals(refused), slot)
            == Described(b, slot) + Walk(regs, Refusals(refused), slot + |Registers(b)|)
  {
    hide Probe, Walk, Refusals, Registers, High, AddressMask;
    WalkUnfold(regs, refused, slot);
    if regs[slot].value == 0 {
      assert !b.Mem64?;
      TwoRegisters(b);
    }
  }

  /** The listing is right for every layout, whatever writes are refused, if and only if no
      64-bit BAR in use is refused at its first slot alone. */
  lemma {:induction false} WalkIsListing(regs: seq<Reg>, slot: nat, bars: seq<Bar>, refused: set<nat>)
    requires LaidOut(regs, slot, bars)
    ensures |regs| == 7
    ensures Walk(regs, Refusals(refused), slot) == Listing(bars, slot, refused)
            <==> NoHalfRefused(bars, slot, refused)
    decreases |bars|
  {
    hide *;
    LaidOutSize(regs, slot, bars);
    if bars == [] {
      WalkUnfold(regs, refused, slot);
      ListingNil(slot, refused);
    } else {
      var b := bars[0];
      var next := slot + |Registers(b)|;
      LaidOutNext(regs, slot, bars);
      ListingUnfold(bars, slot, refused);
      TwoRegisters(b);
      WalkIsListing(regs, next, bars[1..], refused);
      if slot !in refused {
        ProbeDescribes(regs, slot, b);
        NotRefused(regs, slot, b, refused);
        Cancel(Described(b, slot), Walk(regs, Refusals(refused), next), Listing(bars[1..], next, refused));
      } else if b.Mem64? {
        HalfRefused(regs, slot, bars, refused);
      } else {
        WalkUnfold(regs, refused, slot);
      }
    }
  }

  lemma ListingNil(slot: nat, refused: set<nat>)
    ensures Listing([], slot, refused) == [] && NoHalfRefused([], slot, refused)
  {
  }

  /** With no write refused, every BAR in use is listed once, in order, and nothing else is. */
  lemma EveryBarListed(regs: seq<Reg>, bars: seq<Bar>)
    requires LaidOut(regs, 0, bars)
    ensures |regs| == 7 && Walk(regs, Refusals({}), 0) == Listing(bars, 0, {})
  {
    NothingRefused(bars, 0);
    WalkIsListing(regs, 0, bars, {});
  }

  lemma {:induction false} NothingRefused(bars: seq<Bar>, slot: nat)
    ensures NoHalfRefused(bars, slot, {})
  {
    if bars != [] {
      NothingRefused(bars[1..], slot + |Registers(bars[0])|);
    }
  }

  /** A 64-bit BAR of 16 KiB at 4 GiB and an I/O BAR of 32 bytes at 0xc040, in numbers. */
  lemma KnownFunction()
    ensures var regs := [Reg(4, 0xffff_c000), Reg(1, 0xffff_ffff), Reg(0, 0), Reg(0, 0), Reg(0xc041, 0xffff_ffe0),
                         Reg(0, 0), Reg(0, 0)];
            Walk(regs, Refusals({}), 0) ==
            [Line(0, true, true, false, 0x1_0000_0000, 0x4000), Line(4, false, false, false, 0xc040, 32)]
  {
    var regs := [Reg(4, 0xffff_c000), Reg(1, 0xffff_ffff), Reg(0, 0), Reg(0, 0), Reg(0xc041, 0xffff_ffe0),
                 Reg(0, 0), Reg(0, 0)];
    hide *;
    KnownWide(regs);
    KnownIo(regs);
    KnownRest(regs);
  }

  lemma KnownRest(regs: seq<Reg>)
    requires |regs| == 7 && regs[0].value != 0 && regs[4].value != 0
    requires regs[2].value == regs[3].value == regs[5].value == 0
    requires Probe(regs, 0, QUIET) == (Line(0, true, true, false, 0x1_0000_0000, 0x4000), 2)
    requires Probe(regs, 4, QUIET) == (Line(4, false, false, false, 0xc040, 32), 5)
    ensures Walk(regs, Refusals({}), 0) ==
            [Line(0, true, true, false, 0x1_0000_0000, 0x4000), Line(4, false, false, false, 0xc040, 32)]
  {
    hide *;
    WalkUnfold(regs, {}, 0);
    WalkUnfold(regs, {}, 2);
    WalkUnfold(regs, {}, 3);
    WalkUnfold(regs, {}, 4);
    WalkUnfold(regs, {}, 5);
    WalkUnfold(regs, {}, 6);
  }

  /** The registers of such BARs, and of a prefetchable one of 4 KiB. */
  lemma KnownRegisters()
    ensures Registers(Mem64(0x4000, 0x1_0000_0000, false)) == [Reg(4, 0xffff_c000), Reg(1, 0xffff_ffff)]
    ensures Registers(Io(32, 0xc040)) == [Reg(0xc041, 0xffff_ffe0)]
    ensures Registers(Mem32(0x1000, 0xfebf_0000, false, true)) == [Reg(0xfebf_0008, 0xffff_f000)]
  {
  }

  /** The smallest and the largest BARs of each kind, at the highest base. */
  lemma ExtremeBars(prefetch: bool)
    ensures IsBar(Io(4, 0xffff_fffc)) && IsBar(Io(0x8000_0000, 0x8000_0000))
    ensures IsBar(Mem32(16, 0xffff_fff0, true, prefetch)) && IsBar(Mem32(0x8000_0000, 0x8000_0000, false, prefetch))
    ensures IsBar(Mem64(16, 0xffff_ffff_ffff_fff0, prefetch))
    ensures IsBar(Mem64(0x8000_0000_0000_0000, 0x8000_0000_0000_0000, prefetch))
  {
  }

  lemma KnownWide(regs: seq<Reg>)
    requires |regs| == 7 && regs[0] == Reg(4, 0xffff_c000) && regs[1] == Reg(1, 0xffff_ffff)
    ensures Probe(regs, 0, QUIET) == (Line(0, true, true, false, 0x1_0000_0000, 0x4000), 2)
  {
  }

  lemma KnownIo(regs: seq<Reg>)
    requires |regs| == 7 && regs[4] == Reg(0xc041, 0xffff_ffe0)
    ensures Probe(regs, 4, QUIET) == (Line(4, false, false, false, 0xc040, 32), 5)
  {
  }

  const HALVED := [Mem64(0x1000, 0x1_0000_0000, false), Absent, Absent, Absent, Absent]

  /** A function with one 64-bit BAR at 4 GiB, of which only the first disabling write fails: its
      upper half is listed as a BAR, though nothing should be. */
  lemma HalfListed()
    ensures var regs := AllRegisters(HALVED) + [Reg(0, 0)];
            && LaidOut(regs, 0, HALVED)
            && Listing(HALVED, 0, {0}) == [] && Walk(regs, Refusals({0}), 0) != []
  {
    var regs := AllRegisters(HALVED) + [Reg(0, 0)];
    HalvedLayout();
    HalvedUnlisted();
    hide *;
    WalkIsListing(regs, 0, HALVED, {0});
  }

  lemma HalvedLayout()
    ensures LaidOut(AllRegisters(HALVED) + [Reg(0, 0)], 0, HALVED)
  {
    hide IsBar, Registers;
    HalvedBar();
    var rest := [Absent, Absent, Absent, Absent];
    AbsentUnlisted(rest, 2, {0});
    assert AllRegisters(HALVED) == Registers(HALVED[0]) + AllRegisters(rest);
    var regs := AllRegisters(HALVED) + [Reg(0, 0)];
    assert regs[..6] == AllRegisters(HALVED);
  }

  lemma HalvedUnlisted()
    ensures Listing(HALVED, 0, {0}) == [] && !NoHalfRefused(HALVED, 0, {0})
  {
    hide Registers, Described, High;
    HalvedBar();
    assert HALVED[1..] == [Absent, Absent, Absent, Absent];
    AbsentUnlisted(HALVED[1..], 2, {0});
  }

  lemma HalvedBar()
    ensures IsBar(Mem64(0x1000, 0x1_0000_0000, false)) && IsBar(Absent) && High(0x1_0000_0000) != 0
  {
  }

  lemma {:induction false} AbsentUnlisted(bars: seq<Bar>, slot: nat, refused: set<nat>)
    requires forall i :: 0 <= i < |bars| ==> bars[i] == Absent
    ensures Listing(bars, slot, refused) == [] && |AllRegisters(bars)| == |bars|
  {
    if bars != [] {
      AbsentUnlisted(bars[1..], slot + 1, refused);
    }
  }
}
