/** uefistub/stub.c: probing the base address registers of a PCI function (section 6.2.5.1 of
    the PCI Local Bus Specification 3.0). */
module PciBar {
  /** A configuration register with the bits software can change. */
  datatype Reg = Reg(value: bv32, mask: bv32)

  /** A write changes the bits in the mask only. */
  function Mixed(was: bv32, v: bv32, mask: bv32): bv32 { (v & mask) | (was & !mask) }

  function Written(r: Reg, v: bv32): Reg {
    Reg(Mixed(r.value, v, r.mask), r.mask)
  }

  /** One line of the listing. */
  datatype Line = Line(bar: nat, memory: bool, is64: bool, prefetchable: bool, addr: bv64, size: bv64)

  /** Which accesses of a register's cycle fail: reading it, writing all ones, reading that back,
      and restoring it. */
  datatype Cycle = Cycle(read: bool, ones: bool, back: bool, restore: bool)

  /** Which accesses of one slot fail: disabling the function, the cycles of the register and of
      the one after it, and enabling the function again. */
  datatype Faults = Faults(disable: bool, low: Cycle, high: Cycle, enable: bool)

  /** What is read from a register; a failing read leaves the ones the variable starts with. */
  function Fetched(r: Reg, fails: bool): bv32 { if fails then 0xffff_ffff else r.value }

  function Stored(r: Reg, v: bv32, fails: bool): Reg { if fails then r else Written(r, v) }

  /** What a register reads as after all ones have been written. */
  function ReadBack(r: Reg): bv32 { Written(r, 0xffff_ffff).value }

  /** What a cycle measures and what it leaves in the register. */
  function Measured(r: Reg, c: Cycle): bv32 { Fetched(Stored(r, 0xffff_ffff, c.ones), c.back) }

  function Remains(r: Reg, c: Cycle): Reg {
    Stored(Stored(r, 0xffff_ffff, c.ones), Fetched(r, c.read), c.restore)
  }

  /** Every bit software can change is set. */
  predicate IsFull(r: Reg) { Covers(r.value, r.mask) }

  predicate Covers(x: bv32, mask: bv32) { x & mask == mask }

  /** The register has nothing to lose, or it was never changed, or it was read and restored. */
  predicate IsKept(r: Reg, c: Cycle) { IsFull(r) || (if c.restore then c.ones else !c.read) }

  lemma MixedBack(was: bv32, v: bv32, mask: bv32)
    ensures Mixed(Mixed(was, v, mask), was, mask) == was && Mixed(was, was, mask) == was
  {
  }

  lemma FullKeeps(was: bv32, mask: bv32)
    requires Covers(was, mask)
    ensures Mixed(was, 0xffff_ffff, mask) == was
  {
  }

  lemma KeptIsFull(was: bv32, mask: bv32)
    requires Mixed(was, 0xffff_ffff, mask) == was
    ensures Covers(was, mask)
  {
  }

  lemma MixedTwice(was: bv32, v: bv32, mask: bv32)
    ensures Mixed(Mixed(was, v, mask), v, mask) == Mixed(was, v, mask)
  {
  }

  lemma WrittenIs(r: Reg, v: bv32)
    ensures Written(Written(r, v), r.value) == r && Written(r, r.value) == r
    ensures Written(Written(r, v), v) == Written(r, v)
    ensures v == 0xffff_ffff ==> (Written(r, v) == r <==> IsFull(r))
  {
    hide Mixed, Covers;
    MixedBack(r.value, v, r.mask);
    MixedTwice(r.value, v, r.mask);
    if v == 0xffff_ffff {
      if IsFull(r) { FullKeeps(r.value, r.mask); }
      if Written(r, v) == r { KeptIsFull(r.value, r.mask); }
    }
  }

  /** A cycle leaves the register as it was exactly in these cases. */
  lemma RemainsIs(r: Reg, c: Cycle)
    ensures Remains(r, c) == r <==> IsKept(r, c)
  {
    hide Written, IsFull;
    WrittenIs(r, 0xffff_ffff);
  }

  /** The address and size arithmetic.  The masks are 32 bits wide, as `unsigned long` is, and
      so is what is computed from them before it is widened. */
  function IoAddr(value: bv32): bv64 { (value & 0xffff_fffc) as bv64 }

  function IoSize(back: bv32): bv64 { (!(back & 0xffff_fffc) + 1) as bv64 }

  function MemAddr(value: bv32): bv64 { (value & 0xffff_fff0) as bv64 }

  function MemLimit(back: bv32): bv64 { !(back & 0xffff_fff0) as bv64 }

  function OrHigh(low: bv64, high: bv32): bv64 { low | ((high as bv64) << 32) }

  function Inverted(x: bv32): bv32 { !x }

  predicate IsIo(value: bv32) { value & 1 == 1 }

  predicate Is64(back: bv32) { back & 6 == 4 }

  predicate IsPrefetchable(back: bv32) { back & 8 != 0 }

  /** The command register after a write: the bits outside the mask keep their value. */
  function CommandWritten(c: bv16, v: bv16, mask: bv16): bv16 { (v & mask) | (c & !mask) }

  function CommandStored(c: bv16, v: bv16, mask: bv16, fails: bool): bv16 {
    if fails then c else CommandWritten(c, v, mask)
  }

  function OtherBits(c: bv16): bv16 { c & !7 }

  /** A command with the three enable bits cleared. */
  function Cleared(c: bv16): bv16 { c & !7 }

  /** The line for the register at `idx` and the slot to go on with. */
  function Probe(regs: seq<Reg>, idx: nat, f: Faults): (Line, nat)
    requires |regs| == 7 && idx < 6
  {
    var value, back := Fetched(regs[idx], f.low.read), Measured(regs[idx], f.low);
    if IsIo(value) then
      (Line(idx, false, false, false, IoAddr(value), IoSize(back)), idx + 1)
    else if Is64(back) then
      var high, highBack := Fetched(regs[idx + 1], f.high.read), Measured(regs[idx + 1], f.high);
      (Line(idx, true, true, IsPrefetchable(back), OrHigh(MemAddr(value), high),
            Size(OrHigh(MemLimit(back), Inverted(highBack)))), idx + 2)
    else
      (Line(idx, true, false, IsPrefetchable(back), MemAddr(value), Size(MemLimit(back))), idx + 1)
  }

  /** The size from the highest offset; no offset at all is kept as no size. */
  function Size(limit: bv64): bv64 { if limit != 0 then limit + 1 else limit }

  predicate IsWide(r: Reg, f: Faults) { !IsIo(Fetched(r, f.low.read)) && Is64(Measured(r, f.low)) }

  /** The registers after probing at `idx`. */
  function Probed(regs: seq<Reg>, idx: nat, f: Faults): seq<Reg>
    requires |regs| == 7 && idx < 6
  {
    var low := regs[idx := Remains(regs[idx], f.low)];
    if IsWide(regs[idx], f) then low[idx + 1 := Remains(regs[idx + 1], f.high)] else low
  }

  /** The kind of register, in numbers: bit 0 as read says I/O; else bits 1 and 2 of what is read
      back, 2 being set alone, say 64 bits, in which case the next slot is skipped, and bit 3 says
      prefetchable.  What is read back are the bits that are set or can be. */
  lemma KindOf(regs: seq<Reg>, idx: nat, f: Faults)
    requires |regs| == 7 && idx < 6 && !f.low.read && !f.low.ones && !f.low.back
    ensures var (line, next) := Probe(regs, idx, f);
            var value, back := regs[idx].value, Bits(regs[idx]);
            && line.bar == idx && line.memory == (value & 1 == 0)
            && line.is64 == (value & 1 == 0 && back & 6 == 4)
            && line.prefetchable == (value & 1 == 0 && back & 8 == 8)
            && next == (if value & 1 == 0 && back & 6 == 4 then idx + 2 else idx + 1)
  {
    hide *;
    var r := regs[idx];
    ProbeIs(regs, idx, f);
    MeasuredIs(r, f.low);
    KindBits(r.value);
    KindBits(Bits(r));
  }

  /** The bits of a register that are set or can be. */
  function Bits(r: Reg): bv32 { r.value | r.mask }

  lemma MeasuredIs(r: Reg, c: Cycle)
    requires !c.read && !c.ones && !c.back
    ensures Fetched(r, c.read) == r.value && Measured(r, c) == Bits(r)
  {
    ReadBackIs(r);
    hide Written, Bits;
  }

  lemma ReadBackIs(r: Reg)
    ensures Written(r, 0xffff_ffff).value == Bits(r)
  {
  }

  lemma KindBits(x: bv32)
    ensures IsIo(x) <==> x & 1 == 1
    ensures x & 1 == 0 || x & 1 == 1
    ensures Is64(x) <==> x & 6 == 4
    ensures IsPrefetchable(x) <==> x & 8 == 8
  {
  }

  /** With the type bits fixed, as they are in a base address register, those of the value decide. */
  lemma KindOfFixed(regs: seq<Reg>, idx: nat, f: Faults)
    requires |regs| == 7 && idx < 6 && !f.low.read && !f.low.ones && !f.low.back
    requires regs[idx].mask & 15 == 0
    ensures var ((line, next), value) := (Probe(regs, idx, f), regs[idx].value);
            && line.memory == (value & 1 == 0)
            && line.is64 == (value & 1 == 0 && value & 6 == 4)
            && line.prefetchable == (value & 1 == 0 && value & 8 == 8)
            && next == (if value & 1 == 0 && value & 6 == 4 then idx + 2 else idx + 1)
  {
    hide *;
    KindOf(regs, idx, f);
    FixedBits(regs[idx]);
  }

  lemma FixedBits(r: Reg)
    requires r.mask & 15 == 0
    ensures Bits(r) & 6 == r.value & 6 && Bits(r) & 8 == r.value & 8
  {
  }

  /** What one round of the loop prints, the registers after it and the slot to go on with. */
  datatype Round = Round(lines: seq<Line>, regs: seq<Reg>, next: nat)

  predicate IsSkipped(regs: seq<Reg>, idx: nat, f: Faults)
    requires |regs| == 7 && idx < 6
  {
    f.disable || Fetched(regs[idx], f.low.read) == 0
  }

  function RoundOf(regs: seq<Reg>, idx: nat, f: Faults): (r: Round)
    requires |regs| == 7 && idx < 6
    ensures |r.regs| == 7 && idx < r.next <= idx + 2
  {
    if IsSkipped(regs, idx, f) then Round([], regs, idx + 1)
    else
      var (line, next) := Probe(regs, idx, f);
      Round(if line.size > 0 then [line] else [], Probed(regs, idx, f), next)
  }

  /** The lines printed from slot `idx` on. */
  function Walk(regs: seq<Reg>, faults: seq<Faults>, idx: nat): seq<Line>
    requires |regs| == 7 && |faults| == 6
    decreases 7 - idx
  {
    if idx >= 6 then []
    else
      var r := RoundOf(regs, idx, faults[idx]);
      r.lines + Walk(r.regs, faults, r.next)
  }

  /** The registers at the end. */
  function After(regs: seq<Reg>, faults: seq<Faults>, idx: nat): (r: seq<Reg>)
    requires |regs| == 7 && |faults| == 6
    ensures |r| == 7
    decreases 7 - idx
  {
    if idx >= 6 then regs
    else
      var r := RoundOf(regs, idx, faults[idx]);
      After(r.regs, faults, r.next)
  }

  /** Whether the function ends up disabled, from a slot at which `off` says if it is. */
  predicate EndsOff(regs: seq<Reg>, faults: seq<Faults>, idx: nat, off: bool)
    requires |regs| == 7 && |faults| == 6
    decreases 7 - idx
  {
    if idx >= 6 then off
    else
      var r, f := RoundOf(regs, idx, faults[idx]), faults[idx];
      EndsOff(r.regs, faults, r.next, if f.disable then off else f.enable)
  }

  /** Every register that is probed is kept. */
  predicate AreKept(regs: seq<Reg>, faults: seq<Faults>, idx: nat)
    requires |regs| == 7 && |faults| == 6
    decreases 7 - idx
  {
    idx >= 6
    || (var f := faults[idx];
        && (!IsSkipped(regs, idx, f) ==>
              IsKept(regs[idx], f.low) && (IsWide(regs[idx], f) ==> IsKept(regs[idx + 1], f.high)))
        && AreKept(regs, faults, RoundOf(regs, idx, f).next))
  }

  /** No enabling write fails. */
  predicate AreEnabled(faults: seq<Faults>) { forall i :: 0 <= i < |faults| ==> !faults[i].enable }

  predicate HasNoSize(value: bv32, back: bv32, highBack: bv32) {
    if value & 1 == 1 then back & 0xffff_fffc == 0
    else back & 6 == 4 && back & 0xffff_fff0 == 0 && highBack == 0
  }

  /** Which registers that read as something are not listed: I/O with no address bit set when read
      back, and 64-bit memory with none in either half. */
  lemma UnlistedIs(regs: seq<Reg>, idx: nat, f: Faults)
    requires |regs| == 7 && idx < 6 && !f.disable && regs[idx].value != 0
    requires !f.low.read && !f.low.ones && !f.low.back && !f.high.ones && !f.high.back
    ensures RoundOf(regs, idx, f).lines == [] <==> HasNoSize(regs[idx].value, Bits(regs[idx]), Bits(regs[idx + 1]))
  {
    hide *;
    SizeZero(regs[idx].value, Bits(regs[idx]), Bits(regs[idx + 1]));
    SizeIs(regs, idx, f);
    LinesAre(regs, idx, f);
  }

  /** The size computed from what a register reads as and what it and the next read back. */
  function SizeOf(value: bv32, back: bv32, highBack: bv32): bv64 {
    if IsIo(value) then IoSize(back)
    else if Is64(back) then Size(OrHigh(MemLimit(back), Inverted(highBack)))
    else Size(MemLimit(back))
  }

  lemma SizeUnfold(value: bv32, back: bv32, highBack: bv32)
    ensures SizeOf(value, back, highBack) == if IsIo(value) then IoSize(back)
                                             else if Is64(back) then Size(OrHigh(MemLimit(back), Inverted(highBack)))
                                             else Size(MemLimit(back))
  {
    hide IsIo, Is64, IoSize, MemLimit, OrHigh, Size, Inverted;
  }

  lemma LinesAre(regs: seq<Reg>, idx: nat, f: Faults)
    requires |regs| == 7 && idx < 6 && !f.disable && !f.low.read && regs[idx].value != 0
    ensures RoundOf(regs, idx, f).lines == [] <==> !(Probe(regs, idx, f).0.size > 0)
  {
    ReadIs(regs[idx]);
    hide *;
    RoundIs(regs, idx, f);
  }

  lemma SizeZero(value: bv32, back: bv32, highBack: bv32)
    ensures SizeOf(value, back, highBack) > 0 <==> !HasNoSize(value, back, highBack)
  {
    hide IsIo, Is64, IoSize, MemLimit, OrHigh, Size, Inverted;
    KindBits(value);
    KindBits(back);
    IoSizeZero(back);
    MemSizeZero(back);
    WideSizeZero(back, highBack);
  }

  lemma SizeIs(regs: seq<Reg>, idx: nat, f: Faults)
    requires |regs| == 7 && idx < 6
    requires !f.low.read && !f.low.ones && !f.low.back && !f.high.ones && !f.high.back
    ensures Probe(regs, idx, f).0.size
            == SizeOf(regs[idx].value, Bits(regs[idx]), Bits(regs[idx + 1]))
  {
    SizeUnfold(regs[idx].value, Bits(regs[idx]), Bits(regs[idx + 1]));
    hide *;
    ProbeIs(regs, idx, f);
    MeasuredIs(regs[idx], f.low);
    HighMeasuredIs(regs[idx + 1], f.high);
  }

  lemma ReadIs(r: Reg)
    ensures Fetched(r, false) == r.value
  {
  }

  lemma HighMeasuredIs(r: Reg, c: Cycle)
    requires !c.ones && !c.back
    ensures Measured(r, c) == Bits(r)
  {
    ReadBackIs(r);
    hide Written, Bits;
  }

  lemma IoSizeZero(back: bv32)
    ensures IoSize(back) > 0 <==> back & 0xffff_fffc != 0
  {
  }

  lemma MemSizeZero(back: bv32)
    ensures Size(MemLimit(back)) > 0
  {
  }

  lemma WideSizeZero(back: bv32, high: bv32)
    ensures Size(OrHigh(MemLimit(back), Inverted(high))) > 0 <==> !(back & 0xffff_fff0 == 0 && high == 0)
  {
  }

  lemma WalkStep(regs: seq<Reg>, faults: seq<Faults>, idx: nat, off: bool)
    requires |regs| == 7 && |faults| == 6
    ensures idx >= 6 ==> Walk(regs, faults, idx) == [] && After(regs, faults, idx) == regs
    ensures idx >= 6 ==> EndsOff(regs, faults, idx, off) == off
    ensures idx < 6 ==>
      var r, f := RoundOf(regs, idx, faults[idx]), faults[idx];
      && Walk(regs, faults, idx) == r.lines + Walk(r.regs, faults, r.next)
      && After(regs, faults, idx) == After(r.regs, faults, r.next)
      && EndsOff(regs, faults, idx, off) == EndsOff(r.regs, faults, r.next, if f.disable then off else f.enable)
  {
    hide RoundOf;
  }

  lemma RoundIs(regs: seq<Reg>, idx: nat, f: Faults)
    requires |regs| == 7 && idx < 6
    ensures IsSkipped(regs, idx, f) <==> f.disable || Fetched(regs[idx], f.low.read) == 0
    ensures IsSkipped(regs, idx, f) ==> RoundOf(regs, idx, f) == Round([], regs, idx + 1)
    ensures !IsSkipped(regs, idx, f) ==>
      var (line, next) := Probe(regs, idx, f);
      RoundOf(regs, idx, f) == Round(if line.size > 0 then [line] else [], Probed(regs, idx, f), next)
  {
    hide Probe, Probed;
  }

  /** A round leaves the registers before and after those it probes alone. */
  lemma RoundFrame(regs: seq<Reg>, idx: nat, f: Faults)
    requires |regs| == 7 && idx < 6
    ensures var r := RoundOf(regs, idx, f);
            r.regs[..idx] == regs[..idx] && (r.regs[..r.next] == regs[..r.next] ==> r.regs == regs)
  {
    hide Remains, IsIo, Is64, Fetched, Measured, OrHigh, Size;
    var r := RoundOf(regs, idx, f);
    assert r.next < |regs| ==> r.regs[r.next..] == regs[r.next..];
    assert r.regs == r.regs[..r.next] + r.regs[r.next..] && regs == regs[..r.next] + regs[r.next..];
  }

  /** It leaves all of them alone just if those it probes are kept. */
  lemma RoundKeeps(regs: seq<Reg>, idx: nat, f: Faults)
    requires |regs| == 7 && idx < 6
    ensures RoundOf(regs, idx, f).regs == regs <==>
            (!IsSkipped(regs, idx, f) ==>
               IsKept(regs[idx], f.low) && (IsWide(regs[idx], f) ==> IsKept(regs[idx + 1], f.high)))
  {
    hide Remains, IsKept, IsIo, Is64, Fetched, Measured, OrHigh, Size, Probe;
    RemainsIs(regs[idx], f.low);
    RemainsIs(regs[idx + 1], f.high);
    var r := RoundOf(regs, idx, f).regs;
    assert r == regs <==> r[idx] == regs[idx] && r[idx + 1] == regs[idx + 1];
  }

  /** No register is probed again once the loop is past it. */
  lemma {:induction false} PastIsLeft(regs: seq<Reg>, faults: seq<Faults>, idx: nat, k: nat)
    requires |regs| == 7 && |faults| == 6 && k <= idx <= 7
    ensures After(regs, faults, idx)[..k] == regs[..k]
    decreases 7 - idx
  {
    hide RoundOf, IsKept, IsSkipped, IsWide;
    if idx < 6 {
      var r := RoundOf(regs, idx, faults[idx]);
      RoundFrame(regs, idx, faults[idx]);
      PastIsLeft(r.regs, faults, r.next, k);
      assert r.regs[..k] == r.regs[..idx][..k] && regs[..k] == regs[..idx][..k];
    }
  }

  /** The registers end as they began if and only if every one that is probed is kept. */
  lemma {:induction false} RegistersLaw(regs: seq<Reg>, faults: seq<Faults>, idx: nat)
    requires |regs| == 7 && |faults| == 6 && idx <= 7
    ensures After(regs, faults, idx) == regs <==> AreKept(regs, faults, idx)
    decreases 7 - idx
  {
    hide RoundOf, IsKept, IsSkipped, IsWide;
    if idx < 6 {
      var r := RoundOf(regs, idx, faults[idx]);
      RoundFrame(regs, idx, faults[idx]);
      RoundKeeps(regs, idx, faults[idx]);
      if r.regs == regs {
        RegistersLaw(regs, faults, r.next);
      } else {
        PastIsLeft(r.regs, faults, r.next, r.next);
      }
    }
  }

  lemma KeptStep(regs: seq<Reg>, faults: seq<Faults>, idx: nat)
    requires |regs| == 7 && |faults| == 6 && idx < 6 && AreKept(regs, faults, idx)
    ensures var r := RoundOf(regs, idx, faults[idx]); r.regs == regs && AreKept(regs, faults, r.next)
  {
    hide RoundOf, IsKept, IsSkipped, IsWide;
    RoundKeeps(regs, idx, faults[idx]);
  }

  lemma {:induction false} EnabledEnds(regs: seq<Reg>, faults: seq<Faults>, idx: nat)
    requires |regs| == 7 && |faults| == 6 && AreEnabled(faults)
    ensures !EndsOff(regs, faults, idx, false)
    decreases 7 - idx
  {
    hide RoundOf;
    if idx < 6 {
      var r := RoundOf(regs, idx, faults[idx]);
      EnabledEnds(r.regs, faults, r.next);
    }
  }

  /** The function as it was found, with the bits of its command register that can change, and
      the accesses that are going to fail. */
  datatype Run = Run(command: bv16, mask: bv16, regs: seq<Reg>, faults: seq<Faults>)

  ghost predicate IsRun(run: Run) { |run.regs| == 7 && |run.faults| == 6 }

  /** The state of the function after each write, failing or not, and while each line or message
      is printed. */
  datatype Event =
    | CommandWrite(command: bv16, regs: seq<Reg>)
    | RegisterWrite(command: bv16, regs: seq<Reg>)
    | Print(command: bv16, regs: seq<Reg>)

  /** Of the three enable bits only those are set that are stuck at one. */
  predicate IsOff(c: bv16, run: Run) { c & 7 == run.command & !run.mask & 7 }

  /** Nothing but the three enables of the command register ever changes, and registers are only
      written while response to I/O and memory accesses and bus mastering are off, as far as they
      can be.  If every register that is probed is kept, the enables are off whenever a register
      is not as it was found; if no enabling write fails either, everything is as it was found
      while something is printed. */
  ghost predicate IsSafe(e: Event, run: Run)
    requires IsRun(run)
  {
    && OtherBits(e.command) == OtherBits(run.command)
    && (e.RegisterWrite? ==> IsOff(e.command, run))
    && (AreKept(run.regs, run.faults, 0) ==>
          && (e.regs != run.regs ==> IsOff(e.command, run))
          && (AreEnabled(run.faults) && e.Print? ==> e.regs == run.regs && e.command == run.command))
  }

  /** The command register while the function is disabled. */
  function Disabled(run: Run): bv16 { CommandWritten(run.command, Cleared(run.command), run.mask) }

  lemma CommandOff(run: Run)
    ensures IsOff(Disabled(run), run) && OtherBits(Disabled(run)) == OtherBits(run.command)
  {
  }

  /** With no enable bit stuck at one, off means that all three are 0. */
  lemma OffMeansZero(c: bv16, run: Run)
    requires IsOff(c, run) && run.command & !run.mask & 7 == 0
    ensures c & 7 == 0
  {
  }

  /** In numbers: the disabling write leaves every bit from 3 up as it was, and of the three enable
      bits those that are stuck at one. */
  lemma DisabledBits(run: Run)
    ensures Disabled(run) & 0xfff8 == run.command & 0xfff8
    ensures Disabled(run) & 7 == run.command & !run.mask & 7
    ensures Cleared(run.command) == run.command & 0xfff8
  {
  }

  /** What a safe event promises, in numbers. */
  lemma SafeMeans(e: Event, run: Run)
    requires IsRun(run) && IsSafe(e, run)
    ensures e.command & 0xfff8 == run.command & 0xfff8
    ensures e.RegisterWrite? || (AreKept(run.regs, run.faults, 0) && e.regs != run.regs) ==>
      e.command & 7 == run.command & !run.mask & 7
  {
    hide AreKept, OtherBits, IsOff;
    OtherBitsAre(e.command);
    OtherBitsAre(run.command);
    IsOffIs(e.command, run);
  }

  lemma IsOffIs(c: bv16, run: Run)
    ensures IsOff(c, run) <==> c & 7 == run.command & !run.mask & 7
  {
  }

  lemma SafePrintMeans(e: Event, run: Run)
    requires IsRun(run) && IsSafe(e, run) && e.Print? && AreKept(run.regs, run.faults, 0)
    requires forall i :: 0 <= i < 6 ==> !run.faults[i].enable
    ensures e.regs == run.regs && e.command == run.command
  {
    hide AreKept, OtherBits, IsOff;
  }

  lemma OtherBitsAre(c: bv16)
    ensures OtherBits(c) == c & 0xfff8
  {
  }

  /** Disabling works from both states, and so does enabling from the disabled one. */
  lemma CommandMoves(run: Run)
    ensures CommandWritten(run.command, Cleared(run.command), run.mask) == Disabled(run)
    ensures CommandWritten(Disabled(run), Cleared(run.command), run.mask) == Disabled(run)
    ensures CommandWritten(Disabled(run), run.command, run.mask) == run.command
  {
    hide CommandWritten, Cleared;
    WrittenTwice(run.command, Cleared(run.command), run.mask);
    WrittenBack(run.command, Cleared(run.command), run.mask);
  }

  lemma WrittenTwice(c: bv16, v: bv16, mask: bv16)
    ensures CommandWritten(CommandWritten(c, v, mask), v, mask) == CommandWritten(c, v, mask)
  {
  }

  lemma WrittenBack(c: bv16, v: bv16, mask: bv16)
    ensures CommandWritten(CommandWritten(c, v, mask), c, mask) == c
  {
  }

  /** The function at the start of a round: disabled if an enabling write has failed. */
  ghost predicate AtRound(run: Run, idx: nat, command: bv16, regs: seq<Reg>, off: bool)
    requires IsRun(run)
  {
    && |regs| == 7 && command == (if off then Disabled(run) else run.command)
    && (AreKept(run.regs, run.faults, 0) ==> regs == run.regs && AreKept(regs, run.faults, idx))
    && (AreEnabled(run.faults) ==> !off)
  }

  lemma RoundStart(run: Run)
    requires IsRun(run)
    ensures AtRound(run, 0, run.command, run.regs, false)
  {
  }

  /** A round leads from one such state to the next. */
  lemma RoundMoves(run: Run, idx: nat, command: bv16, regs: seq<Reg>, off: bool)
    requires IsRun(run) && idx < 6 && AtRound(run, idx, command, regs, off)
    ensures var r, f := RoundOf(regs, idx, run.faults[idx]), run.faults[idx];
            var off' := if f.disable then off else f.enable;
            AtRound(run, r.next, if off' then Disabled(run) else run.command, r.regs, off')
  {
    hide RoundOf, Disabled;
    if AreKept(run.regs, run.faults, 0) {
      KeptStep(regs, run.faults, idx);
    }
  }

  ghost predicate AreSafe(events: seq<Event>, run: Run)
    requires IsRun(run)
  {
    forall i :: 0 <= i < |events| ==> IsSafe(events[i], run)
  }

  /** `now` adds to `before` nothing but safe events. */
  ghost predicate SafeHistory(before: seq<Event>, now: seq<Event>, run: Run)
    requires IsRun(run)
  {
    before <= now && AreSafe(now[|before|..], run)
  }

  lemma SafeStart(before: seq<Event>, run: Run)
    requires IsRun(run)
    ensures SafeHistory(before, before, run)
  {
  }

  lemma SafeTwice(before: seq<Event>, now: seq<Event>, later: seq<Event>, run: Run)
    requires IsRun(run) && SafeHistory(before, now, run) && SafeHistory(now, later, run)
    ensures SafeHistory(before, later, run)
  {
    hide IsSafe;
    assert later[|before|..] == now[|before|..] + later[|now|..];
  }

  lemma SafeGrowth(before: seq<Event>, now: seq<Event>, e: Event, run: Run)
    requires IsRun(run) && SafeHistory(before, now, run) && IsSafe(e, run)
    ensures SafeHistory(before, now + [e], run)
  {
    hide IsSafe;
    assert (now + [e])[|before|..] == now[|before|..] + [e];
  }

  /** Writing the command register and printing are safe between the probes. */
  lemma SafeBetween(run: Run, idx: nat, command: bv16, regs: seq<Reg>, off: bool)
    requires IsRun(run) && AtRound(run, idx, command, regs, off)
    ensures IsSafe(CommandWrite(command, regs), run) && IsSafe(Print(command, regs), run)
    ensures IsSafe(CommandWrite(Disabled(run), regs), run)
  {
    hide IsOff, OtherBits, Disabled, AreKept;
    CommandOff(run);
  }

  /** So is anything that is written to registers while the function is disabled. */
  lemma SafeOff(run: Run, command: bv16, regs: seq<Reg>)
    requires IsRun(run) && IsOff(command, run) && OtherBits(command) == OtherBits(run.command)
    ensures IsSafe(RegisterWrite(command, regs), run)
  {
    hide IsOff, OtherBits, AreKept;
  }

  lemma ProbeIs(regs: seq<Reg>, idx: nat, f: Faults)
    requires |regs| == 7 && idx < 6
    ensures var value, back := Fetched(regs[idx], f.low.read), Measured(regs[idx], f.low);
            var low := regs[idx := Remains(regs[idx], f.low)];
            && (IsIo(value) ==>
                  Probe(regs, idx, f) == (Line(idx, false, false, false, IoAddr(value), IoSize(back)), idx + 1)
                  && Probed(regs, idx, f) == low)
            && (!IsIo(value) && Is64(back) ==>
                  var high, highBack := Fetched(regs[idx + 1], f.high.read), Measured(regs[idx + 1], f.high);
                  Probe(regs, idx, f) ==
                  (Line(idx, true, true, IsPrefetchable(back), OrHigh(MemAddr(value), high),
                        Size(OrHigh(MemLimit(back), Inverted(highBack)))), idx + 2)
                  && Probed(regs, idx, f) == low[idx + 1 := Remains(regs[idx + 1], f.high)])
            && (!IsIo(value) && !Is64(back) ==>
                  Probe(regs, idx, f) ==
                  (Line(idx, true, false, IsPrefetchable(back), MemAddr(value), Size(MemLimit(back))), idx + 1)
                  && Probed(regs, idx, f) == low)
  {
    hide Fetched, Measured, Remains, Size, IsIo, Is64, IsPrefetchable, IoAddr, IoSize, MemAddr, MemLimit, OrHigh;
  }

  lemma CycleIs(r: Reg, c: Cycle)
    ensures Measured(r, c) == Fetched(Stored(r, 0xffff_ffff, c.ones), c.back)
    ensures Remains(r, c) == Stored(Stored(r, 0xffff_ffff, c.ones), Fetched(r, c.read), c.restore)
  {
  }

  /** A type-0 function: its six base address registers, the register after them, its command
      register, and what is recorded of its history. */
  class PciFunction {
    var regs: seq<Reg>
    var command: bv16
    const commandMask: bv16
    var lines: seq<Line>
    ghost var trace: seq<Event>

    constructor (regs: seq<Reg>, command: bv16, commandMask: bv16)
      ensures this.regs == regs && this.command == command && this.commandMask == commandMask
      ensures lines == [] && trace == []
    {
      this.regs, this.command, this.commandMask := regs, command, commandMask;
      lines, trace := [], [];
    }

    method WriteCommand(v: bv16, fails: bool) returns (ok: bool)
      modifies this`command, this`trace
      ensures ok == !fails
      ensures command == CommandStored(old(command), v, commandMask, fails)
      ensures trace == old(trace) + [CommandWrite(command, regs)]
    {
      ok := !fails;
      if ok {
        command := CommandWritten(command, v, commandMask);
      }
      trace := trace + [CommandWrite(command, regs)];
    }

    method CfgRead32(offset: nat, fails: bool) returns (v: bv32)
      requires |regs| == 7 && 0x10 <= offset <= 0x28 && offset % 4 == 0
      ensures v == Fetched(regs[(offset - 0x10) / 4], fails)
    {
      v := 0xffff_ffff;
      if !fails {
        v := regs[(offset - 0x10) / 4].value;
      }
    }

    method CfgWrite32(offset: nat, v: bv32, fails: bool)
      requires |regs| == 7 && 0x10 <= offset <= 0x28 && offset % 4 == 0
      modifies this`regs, this`trace
      ensures var i := (offset - 0x10) / 4; regs == old(regs)[i := Stored(old(regs)[i], v, fails)]
      ensures trace == old(trace) + [RegisterWrite(command, regs)]
    {
      if !fails {
        var i := (offset - 0x10) / 4;
        regs := regs[i := Written(regs[i], v)];
      }
      trace := trace + [RegisterWrite(command, regs)];
    }

    method PrintLine(line: Line)
      modifies this`lines, this`trace
      ensures lines == old(lines) + [line] && trace == old(trace) + [Print(command, regs)]
    {
      lines := lines + [line];
      trace := trace + [Print(command, regs)];
    }

    method PrintError()
      modifies this`trace
      ensures trace == old(trace) + [Print(command, regs)]
    {
      trace := trace + [Print(command, regs)];
    }

    /** Writes all ones, reads the register back and writes the value it was read as. */
    method Measure(offset: nat, value: bv32, c: Cycle, ghost run: Run) returns (size: bv32)
      requires |regs| == 7 && 0x10 <= offset <= 0x28 && offset % 4 == 0
      requires value == Fetched(regs[(offset - 0x10) / 4], c.read)
      requires IsRun(run) && IsOff(command, run) && OtherBits(command) == OtherBits(run.command)
      modifies this`regs, this`trace
      ensures var i := (offset - 0x10) / 4;
              regs == old(regs)[i := Remains(old(regs)[i], c)] && size == Measured(old(regs)[i], c)
      ensures SafeHistory(old(trace), trace, run)
    {
      hide *;
      ghost var i, history := (offset - 0x10) / 4, trace;
      SafeStart(history, run);
      CycleIs(regs[i], c);
      CfgWrite32(offset, 0xffff_ffff, c.ones);
      SafeOff(run, command, regs);
      SafeGrowth(history, history, RegisterWrite(command, regs), run);
      ghost var probed := trace;
      size := CfgRead32(offset, c.back);
      CfgWrite32(offset, value, c.restore);
      SafeOff(run, command, regs);
      SafeGrowth(history, probed, RegisterWrite(command, regs), run);
    }

    /** Finds out kind, address and size of the register at slot `idx`, which was read as `value`,
        and the slot to go on with. */
    method ProbeBar(idx: nat, value: bv32, f: Faults, ghost run: Run) returns (line: Line, next: nat)
      requires |regs| == 7 && idx < 6 && value == Fetched(regs[idx], f.low.read)
      requires IsRun(run) && IsOff(command, run) && OtherBits(command) == OtherBits(run.command)
      modifies this`regs, this`trace
      ensures (line, next) == Probe(old(regs), idx, f) && idx < next <= idx + 2
      ensures regs == Probed(old(regs), idx, f)
      ensures SafeHistory(old(trace), trace, run)
    {
      hide *;
      ghost var history, found := trace, Probe(regs, idx, f);
      ProbeIs(regs, idx, f);
      var offset := 0x10 + 4 * idx;
      var bar, baseAddr := idx, value;
      var size: bv32;
      var fullAddr: bv64;
      var fullSize: bv64;
      var is64, memory, prefetchable := false, false, false;
      next := idx + 1;
      if IsIo(baseAddr) {
        size := Measure(offset, baseAddr, f.low, run);
        fullAddr := IoAddr(baseAddr);
        fullSize := IoSize(size);
        assert found == (Line(idx, false, false, false, fullAddr, fullSize), next);
      } else {
        memory := true;
        size := Measure(offset, baseAddr, f.low, run);
        prefetchable := IsPrefetchable(size);
        is64 := Is64(size);
        fullAddr := MemAddr(baseAddr);
        fullSize := MemLimit(size);
        if is64 {
          baseAddr := CfgRead32(offset + 4, f.high.read);
          ghost var now := trace;
          size := Measure(offset + 4, baseAddr, f.high, run);
          SafeTwice(history, now, trace, run);
          fullAddr := OrHigh(fullAddr, baseAddr);
          size := Inverted(size);
          fullSize := OrHigh(fullSize, size);
          next := next + 1;
        }
        fullSize := Size(fullSize);
        assert found == (Line(idx, true, is64, prefetchable, fullAddr, fullSize), next);
      }
      line := Line(bar, memory, is64, prefetchable, fullAddr, fullSize);
    }

    /** One round of the loop: disables the function, probes slot `idx`, enables the function
        again and prints the line. */
    method PrintBar(idx: nat, f: Faults, command0: bv16, ghost run: Run, ghost off: bool)
      returns (next: nat, ghost nowOff: bool)
      requires idx < 6 && |regs| == 7 && IsRun(run) && f == run.faults[idx]
      requires command0 == run.command && commandMask == run.mask
      requires AtRound(run, idx, command, regs, off)
      modifies this`regs, this`command, this`lines, this`trace
      ensures old(lines) <= lines && Round(lines[|old(lines)|..], regs, next) == RoundOf(old(regs), idx, f)
      ensures nowOff == (if f.disable then off else f.enable) && AtRound(run, next, command, regs, nowOff)
      ensures SafeHistory(old(trace), trace, run)
    {
      hide *;
      ghost var history := trace;
      RoundIs(regs, idx, f);
      RoundMoves(run, idx, command, regs, off);
      SafeStart(history, run);
      SafeBetween(run, idx, command, regs, off);
      StoredIs(run, off, f.disable, f.enable);
      AtRoundIs(run, idx, command, regs, off);
      CommandOff(run);
      next, nowOff := idx + 1, off;
      var newcommand := Cleared(command0);
      var offset: nat := 0x10 + 4 * idx;
      var ok := WriteCommand(newcommand, f.disable);
      SafeGrowth(history, history, CommandWrite(command, regs), run);
      ghost var before := trace;
      if !ok {
        PrintError();
        SafeGrowth(history, before, Print(command, regs), run);
        return;
      }

      nowOff := f.enable;
      var baseAddr := CfgRead32(offset, f.low.read);
      if baseAddr == 0 {
        var _ := WriteCommand(command0, f.enable);
        SafeBetween(run, next, command, regs, nowOff);
        SafeGrowth(history, before, CommandWrite(command, regs), run);
        return;
      }

      var line;
      line, next := ProbeBar(idx, baseAddr, f, run);
      SafeTwice(history, before, trace, run);

      before := trace;
      var _ := WriteCommand(command0, f.enable);
      SafeBetween(run, next, command, regs, nowOff);
      SafeGrowth(history, before, CommandWrite(command, regs), run);
      if line.size > 0 {
        before := trace;
        PrintLine(line);
        SafeGrowth(history, before, Print(command, regs), run);
      }
    }

    /** Probes the six slots and prints what it finds, whatever accesses fail. */
    method PrintBars(faults: seq<Faults>)
      requires |regs| == 7 && |faults| == 6
      modifies this`regs, this`command, this`lines, this`trace
      ensures lines == old(lines) + Walk(old(regs), faults, 0)
      ensures regs == After(old(regs), faults, 0)
      ensures command == if EndsOff(old(regs), faults, 0, false)
                         then Disabled(Run(old(command), commandMask, old(regs), faults)) else old(command)
      ensures SafeHistory(old(trace), trace, Run(old(command), commandMask, old(regs), faults))
    {
      hide *;
      var command0 := command;
      ghost var regs0, history := regs, trace;
      ghost var run := Run(command0, commandMask, regs0, faults);
      ghost var off := false;
      RunIs(run);
      RoundStart(run);
      SafeStart(history, run);
      var idx := 0;
      while idx < 6
        invariant 0 <= idx <= 7 && |regs| == 7 && AtRound(run, idx, command, regs, off)
        invariant lines + Walk(regs, faults, idx) == old(lines) + Walk(regs0, faults, 0)
        invariant After(regs, faults, idx) == After(regs0, faults, 0)
        invariant EndsOff(regs, faults, idx, off) == EndsOff(regs0, faults, 0, false)
        invariant SafeHistory(history, trace, run)
        decreases 7 - idx
      {
        WalkStep(regs, faults, idx, off);
        ghost var shown, now := lines, trace;
        idx, off := PrintBar(idx, faults[idx], command0, run, off);
        SafeTwice(history, now, trace, run);
        assert lines == shown + lines[|shown|..];
      }
      WalkStep(regs, faults, idx, off);
      AtRoundIs(run, idx, command, regs, off);
    }
  }

  lemma AtRoundIs(run: Run, idx: nat, command: bv16, regs: seq<Reg>, off: bool)
    requires IsRun(run) && AtRound(run, idx, command, regs, off)
    ensures |regs| == 7 && command == if off then Disabled(run) else run.command
  {
  }

  lemma RunIs(run: Run)
    requires |run.regs| == 7 && |run.faults| == 6
    ensures IsRun(run)
  {
  }

  /** The two writes to the command register in a round. */
  lemma StoredIs(run: Run, off: bool, disable: bool, enable: bool)
    ensures CommandStored(if off then Disabled(run) else run.command, Cleared(run.command), run.mask, disable)
            == if disable && !off then run.command else Disabled(run)
    ensures CommandStored(Disabled(run), run.command, run.mask, enable)
            == if enable then Disabled(run) else run.command
  {
    hide CommandWritten, Disabled, Cleared;
    CommandMoves(run);
  }

  /** Only the disabling writes of some slots fail. */
  function Refusals(refused: set<nat>): (f: seq<Faults>)
    ensures |f| == 6
  {
    seq(6, i requires 0 <= i < 6 => if i in refused then QUIET.(disable := true) else QUIET)
  }

  const NONE := Cycle(false, false, false, false)
  const QUIET := Faults(false, NONE, NONE, false)

  /** With all reads and restoring writes in order everything ends as it began. */
  lemma {:induction false} RefusalsKeep(regs: seq<Reg>, refused: set<nat>, idx: nat)
    requires |regs| == 7 && idx <= 7
    ensures AreKept(regs, Refusals(refused), idx) && AreEnabled(Refusals(refused))
    ensures After(regs, Refusals(refused), idx) == regs && !EndsOff(regs, Refusals(refused), idx, false)
    decreases 7 - idx
  {
    hide RoundOf, IsFull, IsSkipped, IsWide;
    RegistersLaw(regs, Refusals(refused), idx);
    EnabledEnds(regs, Refusals(refused), idx);
    if idx < 6 {
      RefusalsKeep(regs, refused, RoundOf(regs, idx, Refusals(refused)[idx]).next);
    }
  }

  /** What the loop prints then. */
  lemma WalkUnfold(regs: seq<Reg>, refused: set<nat>, idx: nat)
    requires |regs| == 7
    ensures idx >= 6 ==> Walk(regs, Refusals(refused), idx) == []
    ensures idx < 6 && (idx in refused || regs[idx].value == 0) ==>
      Walk(regs, Refusals(refused), idx) == Walk(regs, Refusals(refused), idx + 1)
    ensures idx < 6 && idx !in refused && regs[idx].value != 0 ==>
      var (line, next) := Probe(regs, idx, QUIET);
      Walk(regs, Refusals(refused), idx)
      == (if line.size > 0 then [line] else []) + Walk(regs, Refusals(refused), next)
  {
    hide Probe, RoundOf, IsKept, IsSkipped, IsWide;
    if idx < 6 {
      var f := Refusals(refused)[idx];
      RefusalsKeep(regs, refused, idx);
      KeptStep(regs, Refusals(refused), idx);
      RoundIs(regs, idx, f);
      WalkStep(regs, Refusals(refused), idx, false);
    }
  }

  lemma QuietIs(r: Reg)
    ensures Fetched(r, QUIET.low.read) == Fetched(r, QUIET.high.read) == r.value
    ensures Measured(r, QUIET.low) == Measured(r, QUIET.high) == ReadBack(r)
  {
  }

  lemma QuietProbe(regs: seq<Reg>, idx: nat)
    requires |regs| == 7 && idx < 6
    ensures var value, back := regs[idx].value, ReadBack(regs[idx]);
            && (IsIo(value) ==>
                  Probe(regs, idx, QUIET) == (Line(idx, false, false, false, IoAddr(value), IoSize(back)), idx + 1))
            && (!IsIo(value) && Is64(back) ==>
                  Probe(regs, idx, QUIET) ==
                  (Line(idx, true, true, IsPrefetchable(back), OrHigh(MemAddr(value), regs[idx + 1].value),
                        Size(OrHigh(MemLimit(back), Inverted(ReadBack(regs[idx + 1]))))), idx + 2))
            && (!IsIo(value) && !Is64(back) ==>
                  Probe(regs, idx, QUIET) ==
                  (Line(idx, true, false, IsPrefetchable(back), MemAddr(value), Size(MemLimit(back))), idx + 1))
  {
    hide *;
    QuietIs(regs[idx]);
    QuietIs(regs[idx + 1]);
    ProbeIs(regs, idx, QUIET);
  }

  /** If the first read of a memory BAR at 0x1000 fails, the ones it leaves are written back. */
  lemma FailedReadLoses()
    ensures var regs := [Reg(0x1000, 0xffff_f000)] + seq(6, _ => Reg(0, 0));
            var faults := [QUIET.(low := NONE.(read := true))] + seq(5, _ => QUIET);
            !AreKept(regs, faults, 0) && After(regs, faults, 0) != regs
  {
    var regs := [Reg(0x1000, 0xffff_f000)] + seq(6, _ => Reg(0, 0));
    var faults := [QUIET.(low := NONE.(read := true))] + seq(5, _ => QUIET);
    hide RoundOf, After, IsWide;
    RegistersLaw(regs, faults, 0);
  }
}
