/** uefistub/gop.c: choosing a graphics mode and describing its pixels. */
module Gop {
  import opened Masks
  import opened Numerals

  const PIXEL_RGB := 0
  const PIXEL_BIT_MASK := 2
  const PIXEL_BLT_ONLY := 3
  const PIXEL_FORMAT_MAX := 4
  const U16_LIMIT := 0x1_0000
  const U32_LIMIT := 0x1_0000_0000

  type u32 = x: int | 0 <= x < 0x1_0000_0000

  datatype PixelMasks = PixelMasks(red: bv32, green: bv32, blue: bv32, reserved: bv32)

  datatype ModeInfo = ModeInfo(width: u32, height: u32, format: u32, masks: PixelMasks, scanLine: u32)

  /** What the firmware answers to a query for a mode. */
  datatype Answer = Refused | Found(info: ModeInfo)

  function AllMasks(m: PixelMasks): bv32 { Union(Union(Union(m.red, m.green), m.blue), m.reserved) }

  function PixelBpp(format: u32, masks: PixelMasks): (depth: nat)
    ensures depth <= 32
    ensures format != 2 ==> depth == 32
    ensures format == 2 ==>
      var mask := AllMasks(masks);
      if mask == 0 then depth == 0 else PopCount(mask) <= depth && (PopCount(mask) == depth <==> IsContiguous(mask))
  {
    if format == PIXEL_BIT_MASK then
      var mask := AllMasks(masks);
      if mask == 0 then 0 else (SpanIsCount(mask); Fls(mask) - Ffs(mask) + 1)
    else
      32
  }

  /** The bits of a channel, which may be absent. */
  function ChannelSize(mask: bv32): nat { if mask == 0 then 0 else Span(mask) }

  function ChannelPos(mask: bv32): nat { if mask == 0 then 0 else Ffs(mask) }

  /** The position and size of a channel. */
  method FindBits(mask: bv32) returns (position: nat, size: nat)
    ensures position == ChannelPos(mask) && size == ChannelSize(mask)
    ensures position + size <= 32 && (size == 0 <==> mask == 0)
    ensures IsContiguous(mask) ==> mask == Moved(Ones(size), position) && size == PopCount(mask)
    ensures mask != 0 ==> exists x :: IsOdd(x) && Length(x) == size && mask == Moved(x, position)
  {
    if mask == 0 {
      return 0, 0;
    }
    SpanIsCount(mask);
    FfsBelow(mask);
    MaskIs(mask);
    if IsContiguous(mask) {
      ContiguousIs(mask);
    }
    position := Ffs(mask);
    size := Fls(mask) - position + 1;
  }

  predicate IsChannel(mask: bv32) { mask == 0 || IsContiguous(mask) }

  predicate AreChannels(m: PixelMasks) {
    && IsChannel(m.red) && IsChannel(m.green) && IsChannel(m.blue) && IsChannel(m.reserved)
    && AreDisjoint(m.red, m.green) && AreDisjoint(Union(m.red, m.green), m.blue)
    && AreDisjoint(Union(Union(m.red, m.green), m.blue), m.reserved)
  }

  /** The depth stored for the frame buffer. */
  function SumOfSizes(m: PixelMasks): nat {
    ChannelSize(m.red) + ChannelSize(m.green) + ChannelSize(m.blue) + ChannelSize(m.reserved)
  }

  lemma ChannelIsCount(mask: bv32)
    requires IsChannel(mask)
    ensures ChannelSize(mask) == PopCount(mask)
  {
    PopUnfold(0);
    if mask != 0 {
      SpanIsCount(mask);
    }
  }

  /** For channels that share no bit, the two notions of pixel depth agree exactly when the
      channels together leave no gap. */
  lemma DepthAgrees(m: PixelMasks)
    requires AreChannels(m)
    ensures SumOfSizes(m) <= PixelBpp(PIXEL_BIT_MASK, m)
    ensures SumOfSizes(m) == PixelBpp(PIXEL_BIT_MASK, m) <==> IsChannel(AllMasks(m))
  {
    hide Union, AreDisjoint, IsContiguous, PopCount, Span, Ffs, Fls;
    ChannelIsCount(m.red);
    ChannelIsCount(m.green);
    ChannelIsCount(m.blue);
    ChannelIsCount(m.reserved);
    PopUnion(m.red, m.green);
    PopUnion(Union(m.red, m.green), m.blue);
    PopUnion(Union(Union(m.red, m.green), m.blue), m.reserved);
    PopUnfold(0);
    var all := AllMasks(m);
    if all != 0 {
      SpanIsCount(all);
      SpanUnfold(all);
      SpanIsBpp(m);
    }
  }

  lemma SpanIsBpp(m: PixelMasks)
    requires AllMasks(m) != 0
    ensures PixelBpp(PIXEL_BIT_MASK, m) == Span(AllMasks(m))
  {
  }

  /** Channels with a gap: the stored depth is 24, the places from the lowest to the highest
      channel are more. */
  lemma GapLowersDepth()
    ensures AreChannels(GAPPY) && !IsChannel(AllMasks(GAPPY))
    ensures SumOfSizes(GAPPY) == 24 && SumOfSizes(GAPPY) < PixelBpp(PIXEL_BIT_MASK, GAPPY)
  {
    FixedFields();
    GappyBits();
    hide PixelBpp, IsContiguous, Union, ChannelSize;
    DepthAgrees(GAPPY);
  }

  const GAPPY := PixelMasks(0xff, 0xff00, 0xff00_0000, 0)

  lemma GappyBits()
    ensures AreChannels(GAPPY) && !IsChannel(AllMasks(GAPPY)) && ChannelSize(0) == 0
  {
  }

  /** Where the picture is described for the kernel. */
  class ScreenInfo {
    var width: nat
    var height: nat
    var redPos: nat
    var redSize: nat
    var greenPos: nat
    var greenSize: nat
    var bluePos: nat
    var blueSize: nat
    var reservedPos: nat
    var reservedSize: nat
    var depth: nat
    var lineLength: nat
    var size: Option<nat>

    constructor ()
    {
      width, height := 0, 0;
      redPos, redSize, greenPos, greenSize := 0, 0, 0, 0;
      bluePos, blueSize, reservedPos, reservedSize := 0, 0, 0, 0;
      depth, lineLength, size := 0, 0, Some(0);
    }

    /** The fields describe the channels of some masks. */
    ghost predicate Describes(m: PixelMasks)
      reads this`redPos, this`redSize, this`greenPos, this`greenSize
      reads this`bluePos, this`blueSize, this`reservedPos, this`reservedSize, this`depth
    {
      && redPos == ChannelPos(m.red) && redSize == ChannelSize(m.red)
      && greenPos == ChannelPos(m.green) && greenSize == ChannelSize(m.green)
      && bluePos == ChannelPos(m.blue) && blueSize == ChannelSize(m.blue)
      && reservedPos == ChannelPos(m.reserved) && reservedSize == ChannelSize(m.reserved)
      && depth == SumOfSizes(m)
    }

    method SetupMasks(m: PixelMasks)
      modifies this`redPos, this`redSize, this`greenPos, this`greenSize
      modifies this`bluePos, this`blueSize, this`reservedPos, this`reservedSize, this`depth
      ensures Describes(m)
      ensures redPos == ChannelPos(m.red) && redSize == ChannelSize(m.red)
      ensures greenPos == ChannelPos(m.green) && greenSize == ChannelSize(m.green)
      ensures bluePos == ChannelPos(m.blue) && blueSize == ChannelSize(m.blue)
      ensures reservedPos == ChannelPos(m.reserved) && reservedSize == ChannelSize(m.reserved)
      ensures depth == redSize + greenSize + blueSize + reservedSize == SumOfSizes(m)
    {
      hide ChannelPos, ChannelSize, IsContiguous, PopCount, Moved, Ones;
      redPos, redSize := FindBits(m.red);
      greenPos, greenSize := FindBits(m.green);
      bluePos, blueSize := FindBits(m.blue);
      reservedPos, reservedSize := FindBits(m.reserved);
      depth := redSize + greenSize + blueSize + reservedSize;
    }

    method SetupFixed(info: ModeInfo)
      requires info.format != PIXEL_BIT_MASK
      modifies this`redPos, this`redSize, this`greenPos, this`greenSize
      modifies this`bluePos, this`blueSize, this`reservedPos, this`reservedSize, this`depth
      ensures Describes(EffectiveMasks(info))
      ensures (redPos, greenPos, bluePos) == if info.format == 0 then (0, 8, 16) else (16, 8, 0)
      ensures redSize == greenSize == blueSize == reservedSize == 8 && reservedPos == 24 && depth == 32
    {
      hide ChannelPos, ChannelSize, SumOfSizes, AreChannels, EffectiveMasks;
      FixedDescription(info);
      if info.format == PIXEL_RGB {
        redPos := 0;
        bluePos := 16;
      } else {
        bluePos := 0;
        redPos := 16;
      }
      greenPos := 8;
      reservedPos := 24;
      redSize, greenSize, blueSize, reservedSize := 8, 8, 8, 8;
      depth := 32;
    }

    method Setup(info: ModeInfo)
      modifies this
      ensures width == info.width % 0x1_0000 && height == info.height % 0x1_0000
      ensures Describes(EffectiveMasks(info))
      ensures lineLength == StoredLine(info) && size == StoredSize(info)
      ensures info.format == 0 ==>
        (redPos, greenPos, bluePos) == (0, 8, 16)
        && forall r: bv8, g: bv8, b: bv8 :: Bytes(Pixel(r, g, b, redPos, greenPos, bluePos)) == [r, g, b, 0]
      ensures info.format == 1 ==>
        (redPos, greenPos, bluePos) == (16, 8, 0)
        && forall r: bv8, g: bv8, b: bv8 :: Bytes(Pixel(r, g, b, redPos, greenPos, bluePos)) == [b, g, r, 0]
      ensures info.format == 2 ==>
        && redPos == ChannelPos(info.masks.red) && redSize == ChannelSize(info.masks.red)
        && greenPos == ChannelPos(info.masks.green) && greenSize == ChannelSize(info.masks.green)
        && bluePos == ChannelPos(info.masks.blue) && blueSize == ChannelSize(info.masks.blue)
        && reservedPos == ChannelPos(info.masks.reserved) && reservedSize == ChannelSize(info.masks.reserved)
        && depth == redSize + greenSize + blueSize + reservedSize
        && lineLength == info.scanLine * depth % 0x1_0000_0000 / 8 % 0x1_0000
      ensures info.format != 2 ==>
        && redSize == greenSize == blueSize == reservedSize == 8 && reservedPos == 24 && depth == 32
        && lineLength == info.scanLine * 4 % 0x1_0000_0000 % 0x1_0000
      ensures size == if lineLength * height <= 0x7fff_ffff then Some(lineLength * height) else None
    {
      hide *;
      StoredForms(info);
      width := info.width % 0x1_0000;
      height := info.height % 0x1_0000;
      if info.format == 2 {
        SetupMasks(info.masks);
        MulsAre(info.scanLine, depth);
        lineLength := Mul32(info.scanLine, depth) / 8 % 0x1_0000;
      } else {
        SetupFixed(info);
        MulsAre(info.scanLine, 4);
        lineLength := Mul32(info.scanLine, 4) % 0x1_0000;
        PixelsAre();
      }
      MulIntIs(lineLength, height);
      size := MulInt(lineLength, height);
    }
  }

  /** What is stored for each kind of format. */
  lemma StoredForms(info: ModeInfo)
    ensures PIXEL_BIT_MASK == 2
    ensures info.format == 2 ==>
      EffectiveMasks(info) == info.masks
      && StoredLine(info) == info.scanLine * SumOfSizes(info.masks) % 0x1_0000_0000 / 8 % 0x1_0000
    ensures info.format != 2 ==> StoredLine(info) == info.scanLine * 4 % 0x1_0000_0000 % 0x1_0000
    ensures StoredSize(info) == MulInt(StoredLine(info), info.height % 0x1_0000)
  {
    hide SumOfSizes;
    OwnMasks(info);
    if info.format != 2 {
      FixedDescription(info);
      FixedLine(info.scanLine);
    }
  }

  lemma MulIntIs(x: nat, y: nat)
    ensures MulInt(x, y) == if x * y <= 0x7fff_ffff then Some(x * y) else None
  {
  }

  /** A pixel as it is composed from a color, and its bytes in memory. */
  function Pixel(r: bv8, g: bv8, b: bv8, redPos: nat, greenPos: nat, bluePos: nat): bv32
    requires redPos <= 32 && greenPos <= 32 && bluePos <= 32
  {
    ((r as bv32) << redPos) | ((g as bv32) << greenPos) | ((b as bv32) << bluePos)
  }

  function Bytes(p: bv32): seq<bv8> {
    [(p & 0xff) as bv8, ((p >> 8) & 0xff) as bv8, ((p >> 16) & 0xff) as bv8, (p >> 24) as bv8]
  }

  /** The bytes of a word put together from bytes. */
  lemma BytesOf(b0: bv8, b1: bv8, b2: bv8)
    ensures Bytes(Composed(b0, b1, b2)) == [b0, b1, b2, 0]
  {
  }

  function Composed(b0: bv8, b1: bv8, b2: bv8): bv32 { (b0 as bv32) | ((b1 as bv32) << 8) | ((b2 as bv32) << 16) }

  lemma PixelIs(r: bv8, g: bv8, b: bv8)
    ensures Pixel(r, g, b, 0, 8, 16) == Composed(r, g, b)
    ensures Pixel(r, g, b, 16, 8, 0) == Composed(b, g, r)
  {
  }

  lemma PixelBytes(r: bv8, g: bv8, b: bv8)
    ensures Bytes(Pixel(r, g, b, 0, 8, 16)) == [r, g, b, 0]
    ensures Bytes(Pixel(r, g, b, 16, 8, 0)) == [b, g, r, 0]
  {
    hide *;
    PixelIs(r, g, b);
    BytesOf(r, g, b);
    BytesOf(b, g, r);
  }

  lemma PixelsAre()
    ensures forall r: bv8, g: bv8, b: bv8 :: Bytes(Pixel(r, g, b, 0, 8, 16)) == [r, g, b, 0]
    ensures forall r: bv8, g: bv8, b: bv8 :: Bytes(Pixel(r, g, b, 16, 8, 0)) == [b, g, r, 0]
  {
    hide Pixel, Bytes;
    forall r: bv8, g: bv8, b: bv8
      ensures Bytes(Pixel(r, g, b, 0, 8, 16)) == [r, g, b, 0] && Bytes(Pixel(r, g, b, 16, 8, 0)) == [b, g, r, 0]
    {
      PixelBytes(r, g, b);
    }
  }

  lemma OwnMasks(info: ModeInfo)
    ensures info.format == PIXEL_BIT_MASK ==> EffectiveMasks(info) == info.masks
  {
  }

  /** One byte a channel. */
  lemma FixedDescription(info: ModeInfo)
    requires info.format != PIXEL_BIT_MASK
    ensures var m, rgb := EffectiveMasks(info), info.format == PIXEL_RGB;
            && ChannelPos(m.red) == (if rgb then 0 else 16) && ChannelPos(m.green) == 8
            && ChannelPos(m.blue) == (if rgb then 16 else 0) && ChannelPos(m.reserved) == 24
            && ChannelSize(m.red) == ChannelSize(m.green) == ChannelSize(m.blue) == ChannelSize(m.reserved) == 8
            && SumOfSizes(m) == 32 && AreChannels(m)
  {
    hide ChannelPos, ChannelSize, AreChannels;
    FixedFields();
    FixedChannels();
  }

  lemma FixedChannels()
    ensures AreChannels(PixelMasks(0xff, 0xff00, 0xff_0000, 0xff00_0000))
    ensures AreChannels(PixelMasks(0xff_0000, 0xff00, 0xff, 0xff00_0000))
  {
  }

  /** A product of 32-bit words. */
  function Mul32(x: nat, y: nat): nat { x * y % U32_LIMIT }

  /** A product of two `int`, undefined if it overflows. */
  function MulInt(x: nat, y: nat): Option<nat> { if x * y <= 0x7fff_ffff then Some(x * y) else None }

  /** The masks a format stands for: its own for a bit mask format, else one byte a channel. */
  function EffectiveMasks(info: ModeInfo): PixelMasks {
    if info.format == PIXEL_BIT_MASK then info.masks
    else if info.format == PIXEL_RGB then PixelMasks(0xff, 0xff00, 0xff_0000, 0xff00_0000)
    else PixelMasks(0xff_0000, 0xff00, 0xff, 0xff00_0000)
  }

  /** The line length and the frame size left in the description. */
  function StoredLine(info: ModeInfo): nat {
    Mul32(info.scanLine, SumOfSizes(EffectiveMasks(info))) / 8 % U16_LIMIT
  }

  function StoredSize(info: ModeInfo): Option<nat> { MulInt(StoredLine(info), info.height % U16_LIMIT) }

  /** The length of a line in bytes, and that of the lines of a frame together. */
  function LineBytes(info: ModeInfo): nat { info.scanLine * PixelBpp(info.format, info.masks) / 8 }

  function FrameBytes(info: ModeInfo): nat { LineBytes(info) * info.height }

  /** The masks a format stands for are channels; so they are if the firmware keeps to the UEFI
      specification. */
  predicate HasChannels(info: ModeInfo) { AreChannels(EffectiveMasks(info)) }

  /** The bits and bytes of a line the stored depth accounts for. */
  function CountedBits(info: ModeInfo): nat { Times(info.scanLine, SumOfSizes(EffectiveMasks(info))) }

  function Times(x: nat, y: nat): nat { x * y }

  function CountedBytes(info: ModeInfo): nat { CountedBits(info) / 8 }

  lemma StoredIsCounted(info: ModeInfo)
    ensures StoredLine(info) == CountedBytes(info) % U16_LIMIT
  {
    hide CountedBits;
    StoredUnfold(info);
    hide StoredLine;
    EighthWraps(CountedBits(info));
  }

  lemma StoredUnfold(info: ModeInfo)
    ensures StoredLine(info) == CountedBits(info) % 0x1_0000_0000 / 8 % 0x1_0000
  {
    hide SumOfSizes;
  }

  lemma EighthWraps(x: nat)
    ensures x % 0x1_0000_0000 / 8 % 0x1_0000 == x / 8 % 0x1_0000
  {
    var q, r := x / 0x1_0000_0000, x % 0x1_0000_0000;
    assert x / 8 == q * 0x2000_0000 + r / 8;
    WholeTurns(q, r / 8);
  }

  lemma WholeTurns(q: nat, r: nat)
    ensures (q * 0x2000_0000 + r) % 0x1_0000 == r % 0x1_0000
  {
    var k := r / 0x1_0000;
    DivMod(q * 0x2000 + k, r % 0x1_0000, 0x1_0000);
  }

  lemma FixedLine(scanLine: u32)
    ensures Mul32(scanLine, 4) % U16_LIMIT == Mul32(scanLine, 32) / 8 % U16_LIMIT
  {
    EighthWraps(scanLine * 32);
    WordWraps(scanLine * 4);
  }

  lemma WordWraps(x: nat)
    ensures x % 0x1_0000_0000 % 0x1_0000 == x % 0x1_0000
  {
    var q := x / 0x1_0000_0000;
    WholeTurns(8 * q, x % 0x1_0000_0000);
  }

  /** The depth of a mode against the depth stored. */
  lemma DepthLaw(info: ModeInfo)
    requires HasChannels(info)
    ensures SumOfSizes(EffectiveMasks(info)) <= PixelBpp(info.format, info.masks)
    ensures SumOfSizes(EffectiveMasks(info)) == PixelBpp(info.format, info.masks)
            <==> IsChannel(AllMasks(EffectiveMasks(info)))
  {
    hide AreChannels, Union, IsContiguous, ChannelSize, PopCount;
    DepthAgrees(EffectiveMasks(info));
    if info.format != PIXEL_BIT_MASK {
      FixedDescription(info);
    }
  }

  lemma MoreBytes(scanLine: nat, d: nat, e: nat)
    requires d <= e
    ensures scanLine * d / 8 <= scanLine * e / 8
    ensures scanLine >= 8 ==> (scanLine * d / 8 == scanLine * e / 8 <==> d == e)
  {
    if d < e {
      MulMonotone(d + 1, e, scanLine, scanLine);
      assert (d + 1) * scanLine == scanLine * d + scanLine;
    }
  }

  /** For every mode with channels: the stored line length is the length of a line if and only if
      that is below 64 KiB and the stored depth accounts for all of it.  A line of at least 8
      pixels is accounted for just if the channels together leave no gap. */
  lemma LineLaw(info: ModeInfo)
    requires HasChannels(info)
    ensures StoredLine(info) <= CountedBytes(info) <= LineBytes(info)
    ensures StoredLine(info) == LineBytes(info)
            <==> LineBytes(info) < U16_LIMIT && CountedBytes(info) == LineBytes(info)
    ensures info.scanLine >= 8 ==>
      (CountedBytes(info) == LineBytes(info) <==> IsChannel(AllMasks(EffectiveMasks(info))))
  {
    hide HasChannels, PixelBpp, SumOfSizes, IsChannel, StoredLine;
    DepthLaw(info);
    StoredIsCounted(info);
    MoreBytes(info.scanLine, SumOfSizes(EffectiveMasks(info)), PixelBpp(info.format, info.masks));
  }

  /** The frame size is the size of the frame if and only if it is a non-negative `int` and no
      factor was cut short, or there is no frame at all. */
  lemma FrameLaw(info: ModeInfo)
    requires HasChannels(info)
    ensures StoredSize(info) == Some(FrameBytes(info))
            <==> || FrameBytes(info) == 0
                 || (FrameBytes(info) <= 0x7fff_ffff && info.height < U16_LIMIT && LineBytes(info) < U16_LIMIT
                     && CountedBytes(info) == LineBytes(info))
  {
    hide HasChannels, StoredLine, LineBytes, CountedBytes;
    LineLaw(info);
    Products(StoredLine(info), LineBytes(info), info.height % U16_LIMIT, info.height);
  }

  lemma Products(a: nat, b: nat, c: nat, d: nat)
    requires a <= b && c <= d
    ensures a * c == b * d <==> b * d == 0 || (a == b && c == d)
  {
    MulMonotone(a, b, c, d);
    if a * c == b * d > 0 {
      ProductGrows(a, b, c);
      ProductGrows(c, d, b);
    }
  }

  lemma ProductGrows(a: nat, b: nat, c: nat)
    requires a <= b
    ensures a * c <= b * c && (a * c == b * c ==> a == b || c == 0)
  {
    assert b * c - a * c == (b - a) * c;
  }

  const WIDE := ModeInfo(0x4000, 1, PIXEL_RGB, PixelMasks(0, 0, 0, 0), 0x4000)
  const SPARSE := ModeInfo(800, 600, PIXEL_BIT_MASK, GAPPY, 800)
  const LARGE := ModeInfo(0x3fff, 0x9000, PIXEL_RGB, PixelMasks(0, 0, 0, 0), 0x3fff)

  lemma FixedBytes(info: ModeInfo)
    requires info.format != PIXEL_BIT_MASK
    ensures HasChannels(info) && LineBytes(info) == info.scanLine * 4
    ensures StoredLine(info) == info.scanLine * 4 % U16_LIMIT
  {
    FixedDescription(info);
    hide EffectiveMasks, SumOfSizes, AreChannels, Mul32;
    FixedLine(info.scanLine);
    WordWraps(info.scanLine * 4);
    MulsAre(info.scanLine, 4);
  }

  lemma MulsAre(x: nat, y: nat)
    ensures Mul32(x, y) == x * y % 0x1_0000_0000
  {
  }

  /** Each condition can fail: a line of 65536 bytes is stored as 0. */
  lemma WideLineLost()
    ensures HasChannels(WIDE) && LineBytes(WIDE) == U16_LIMIT && StoredLine(WIDE) == 0
  {
    hide HasChannels, StoredLine, LineBytes, PixelBpp, AllMasks;
    FixedBytes(WIDE);
  }

  /** A line of 800 pixels whose channels have a gap is stored as 2400 bytes, which is too short. */
  lemma SparseLineShort()
    ensures HasChannels(SPARSE) && StoredLine(SPARSE) == 2400 < LineBytes(SPARSE) < U16_LIMIT
  {
    GapLowersDepth();
    hide SumOfSizes, AreChannels, AllMasks, IsChannel, PixelBpp, LineBytes;
    LineIs(SPARSE);
  }

  lemma LineIs(info: ModeInfo)
    ensures LineBytes(info) == info.scanLine * PixelBpp(info.format, info.masks) / 8
  {
  }

  /** The size of a frame can overflow though its lines and its height fit 16 bits. */
  lemma LargeFrameLost()
    ensures HasChannels(LARGE) && StoredLine(LARGE) == LineBytes(LARGE) && LARGE.height < U16_LIMIT
    ensures StoredSize(LARGE) == None
  {
    hide HasChannels, StoredLine, LineBytes, PixelBpp, AllMasks;
    FixedBytes(LARGE);
  }

  lemma FixedFields()
    ensures ChannelPos(0xff) == 0 && ChannelPos(0xff00) == 8 && ChannelPos(0xff_0000) == 16
    ensures ChannelPos(0xff00_0000) == 24
    ensures ChannelSize(0xff) == 8 && ChannelSize(0xff00) == 8 && ChannelSize(0xff_0000) == 8
    ensures ChannelSize(0xff00_0000) == 8
  {
    hide *;
    ByteSpan();
    Nibbles();
    SpanUp4(0xff0);
    SpanUp4(0xff00);
    SpanUp4(0xf_f000);
    SpanUp4(0xff_0000);
    SpanUp4(0xff0_0000);
    SpanUp4(0xff00_0000);
    FieldIs(0xff);
    FieldIs(0xff00);
    FieldIs(0xff_0000);
    FieldIs(0xff00_0000);
  }

  lemma Nibbles()
    ensures Shr4(0xff0) == 0xff && Shr4(0xff00) == 0xff0 && Shr4(0xf_f000) == 0xff00
    ensures Shr4(0xff_0000) == 0xf_f000 && Shr4(0xff0_0000) == 0xff_0000 && Shr4(0xff00_0000) == 0xff0_0000
  {
  }

  lemma FieldIs(mask: bv32)
    requires mask != 0
    ensures ChannelPos(mask) == Ffs(mask) && ChannelSize(mask) == Span(mask)
  {
  }

  /** What modes are ranked by: the area, as a 32-bit product, and then the depth. */
  datatype Rank = Rank(area: nat, depth: nat)

  predicate Beats(a: Rank, b: Rank) { a.area > b.area || (a.area == b.area && a.depth > b.depth) }

  function Area(info: ModeInfo): nat { info.width * info.height }

  function RankOf(info: ModeInfo): Rank {
    Rank(Area(info) % U32_LIMIT, PixelBpp(info.format, info.masks))
  }

  predicate IsUsable(a: Answer) {
    a.Found? && a.info.format != PIXEL_BLT_ONLY && a.info.format < PIXEL_FORMAT_MAX
  }

  /** A mode with the rank it was chosen for. */
  datatype Choice = Choice(mode: nat, rank: Rank)

  /** `best` is the first of the first `n` modes, the usable ones, that no other beats; it stays
      at `start` if none of them beats that. */
  ghost predicate IsBestFrom(answers: seq<Answer>, n: nat, start: Choice, best: Choice) {
    && n <= |answers|
    && if exists i :: 0 <= i < n && IsUsable(answers[i]) && Beats(RankOf(answers[i].info), start.rank) then
         && best.mode < n && IsUsable(answers[best.mode]) && best.rank == RankOf(answers[best.mode].info)
         && (forall i :: 0 <= i < n && IsUsable(answers[i]) ==> !Beats(RankOf(answers[i].info), best.rank))
         && (forall i :: 0 <= i < best.mode && IsUsable(answers[i]) ==>
               Beats(best.rank, RankOf(answers[i].info)))
       else best == start
  }

  /** `mode` is the first usable mode that no usable mode beats, or 0 if all of them are without
      area and depth. */
  ghost predicate IsBestMode(answers: seq<Answer>, mode: nat) {
    exists rank :: IsBestFrom(answers, |answers|, Choice(0, Rank(0, 0)), Choice(mode, rank))
  }

  /** The firmware's graphics output protocol.  `obtained` records for which mode each
      information buffer was handed out; a buffer is named by its place there, and `live` are
      those that have not been given back. */
  class GraphicsOutput {
    const answers: seq<Answer>
    const currentMode: nat
    var obtained: seq<nat>
    var live: set<nat>

    constructor (answers: seq<Answer>, currentMode: nat)
      ensures this.answers == answers && this.currentMode == currentMode && obtained == [] && live == {}
    {
      this.answers, this.currentMode := answers, currentMode;
      obtained, live := [], {};
    }

    ghost predicate Valid()
      reads this
    {
      forall b :: b in live ==> b < |obtained|
    }

    method QueryMode(m: nat) returns (a: Answer, buffer: nat)
      requires Valid() && m < |answers|
      modifies this
      ensures Valid() && a == answers[m]
      ensures a.Refused? ==> obtained == old(obtained) && live == old(live)
      ensures a.Found? ==> buffer !in old(live) && live == old(live) + {buffer} && obtained == old(obtained) + [m]
    {
      a, buffer := answers[m], |obtained|;
      if a.Found? {
        obtained, live := obtained + [m], live + {buffer};
      }
    }

    /** Gives back a buffer that is still out. */
    method FreeBuffer(buffer: nat)
      requires Valid() && buffer in live
      modifies this`live
      ensures Valid() && live == old(live) - {buffer}
    {
      live := live - {buffer};
    }
  }

  /** The modes whose query succeeds. */
  function FoundModes(answers: seq<Answer>, n: nat): seq<nat>
    requires n <= |answers|
  {
    if n == 0 then []
    else FoundModes(answers, n - 1) + (if answers[n - 1].Found? then [n - 1] else [])
  }

  /** The best mode so far. */
  class Match {
    var mode: nat
    var area: nat
    var depth: nat

    constructor ()
      ensures Chosen() == Choice(0, Rank(0, 0))
    {
      mode, area, depth := 0, 0, 0;
    }

    function Chosen(): Choice
      reads this
    {
      Choice(mode, Rank(area, depth))
    }

    method HighestRes(info: ModeInfo, m: nat) returns (stop: bool)
      modifies this
      ensures !stop
      ensures Chosen() == if IsUsable(Found(info)) && Beats(RankOf(info), old(Chosen().rank))
                          then Choice(m, RankOf(info)) else old(Chosen())
    {
      var newArea := Area(info) % U32_LIMIT;
      var newDepth := PixelBpp(info.format, info.masks);
      if info.format == PIXEL_BLT_ONLY || info.format >= PIXEL_FORMAT_MAX {
        return false;
      }
      if newArea > area || (newArea == area && newDepth > depth) {
        mode, area, depth := m, newArea, newDepth;
      }
      stop := false;
    }
  }

  lemma FoundStep(answers: seq<Answer>, n: nat)
    requires n <= |answers|
    ensures FoundModes(answers, 0) == []
    ensures n < |answers| ==>
      FoundModes(answers, n + 1) == FoundModes(answers, n) + (if answers[n].Found? then [n] else [])
  {
  }

  /** Every mode that can be queried is there, once and in order. */
  lemma {:induction false} FoundModesAre(answers: seq<Answer>, n: nat)
    requires n <= |answers|
    ensures forall m :: m in FoundModes(answers, n) <==> 0 <= m < n && answers[m].Found?
    ensures forall i, j :: 0 <= i < j < |FoundModes(answers, n)| ==>
              FoundModes(answers, n)[i] < FoundModes(answers, n)[j]
  {
    FoundStep(answers, n);
    if n > 0 {
      FoundModesAre(answers, n - 1);
      var before := FoundModes(answers, n - 1);
      forall j | 0 <= j < |before| ensures before[j] < n - 1 { assert before[j] in before; }
    }
  }

  lemma UsableIsFound(a: Answer)
    ensures IsUsable(a) ==> a.Found?
  {
  }

  lemma BestStart(answers: seq<Answer>, start: Choice)
    ensures IsBestFrom(answers, 0, start, start)
  {
  }

  lemma BestStep(answers: seq<Answer>, m: nat, start: Choice, best: Choice)
    requires m < |answers| && IsBestFrom(answers, m, start, best)
    ensures var better := IsUsable(answers[m]) && Beats(RankOf(answers[m].info), best.rank);
            IsBestFrom(answers, m + 1, start, if better then Choice(m, RankOf(answers[m].info)) else best)
  {
    hide RankOf, IsUsable;
  }

  /** Goes through the modes; the callback never stops it, so the current mode is returned.  What
      the context held before is kept unless a mode beats it. */
  method ChooseMode(gop: GraphicsOutput, ctx: Match) returns (r: int)
    requires gop.Valid()
    modifies gop, ctx
    ensures r == gop.currentMode
    ensures IsBestFrom(gop.answers, |gop.answers|, old(ctx.Chosen()), ctx.Chosen())
    ensures gop.Valid() && gop.live == old(gop.live)
    ensures gop.obtained == old(gop.obtained) + FoundModes(gop.answers, |gop.answers|)
  {
    hide *;
    var maxMode := |gop.answers|;
    var m := 0;
    BestStart(gop.answers, ctx.Chosen());
    FoundStep(gop.answers, 0);
    while m < maxMode
      invariant 0 <= m <= maxMode
      invariant IsBestFrom(gop.answers, m, old(ctx.Chosen()), ctx.Chosen())
      invariant gop.Valid() && gop.live == old(gop.live)
      invariant gop.obtained == old(gop.obtained) + FoundModes(gop.answers, m)
    {
      BestStep(gop.answers, m, old(ctx.Chosen()), ctx.Chosen());
      FoundStep(gop.answers, m);
      var answer, buffer := gop.QueryMode(m);
      UsableIsFound(answer);
      if answer.Refused? {
        m := m + 1;
        continue;
      }
      var matched := ctx.HighestRes(answer.info, m);
      gop.FreeBuffer(buffer);
      if matched {
        return m;
      }
      m := m + 1;
    }
    r := gop.currentMode;
  }

  /** The first mode of the highest area and, within that, depth.  One buffer is obtained for
      each mode that can be queried, and the buffers still out at the end are those that were
      out before. */
  method ChooseHighestRes(gop: GraphicsOutput) returns (mode: nat)
    requires gop.Valid()
    modifies gop
    ensures IsBestMode(gop.answers, mode)
    ensures gop.Valid() && gop.live == old(gop.live)
    ensures gop.obtained == old(gop.obtained) + FoundModes(gop.answers, |gop.answers|)
  {
    hide IsBestFrom, FoundModes;
    var m := new Match();
    var _ := ChooseMode(gop, m);
    mode := m.mode;
    assert m.Chosen() == Choice(mode, m.Chosen().rank);
  }

  /** There is only one such mode, whatever the context held before. */
  lemma BestUnique(answers: seq<Answer>, n: nat, start: Choice, b: Choice, c: Choice)
    requires IsBestFrom(answers, n, start, b) && IsBestFrom(answers, n, start, c)
    ensures b == c
  {
    hide RankOf, IsUsable;
  }

  /** The order among modes, in numbers: a usable mode scores its 32-bit area and, as depths are at
      most 32, its depth in the last place to base 33. */
  function Score(a: Answer): nat {
    if a.Found? && a.info.format < 3
    then a.info.width * a.info.height % 0x1_0000_0000 * 33 + PixelBpp(a.info.format, a.info.masks)
    else 0
  }

  /** The mode chosen is the first of the highest score, or 0 if there is no score. */
  lemma BestIsMaximum(answers: seq<Answer>, mode: nat)
    ensures IsBestMode(answers, mode) <==>
            if forall i :: 0 <= i < |answers| ==> Score(answers[i]) == 0 then mode == 0
            else && mode < |answers|
                 && (forall i :: 0 <= i < |answers| ==> Score(answers[i]) <= Score(answers[mode]))
                 && (forall i :: 0 <= i < mode ==> Score(answers[i]) < Score(answers[mode]))
  {
    hide ScoresFit, IsBestMode, Score;
    ScoresAre(answers);
    if IsBestMode(answers, mode) {
      BestIsFirst(answers, mode);
    } else if forall i :: 0 <= i < |answers| ==> Score(answers[i]) == 0 {
      if mode == 0 { FirstIsBest(answers, mode); }
    } else if && mode < |answers|
              && (forall i :: 0 <= i < |answers| ==> Score(answers[i]) <= Score(answers[mode]))
              && (forall i :: 0 <= i < mode ==> Score(answers[i]) < Score(answers[mode])) {
      FirstIsBest(answers, mode);
    }
  }

  /** Scores compare as the ranks of usable modes do. */
  ghost predicate ScoresFit(answers: seq<Answer>) {
    && (forall i, j :: 0 <= i < |answers| && 0 <= j < |answers| && IsUsable(answers[i]) && IsUsable(answers[j]) ==>
          (Beats(RankOf(answers[i].info), RankOf(answers[j].info)) <==> Score(answers[i]) > Score(answers[j])))
    && (forall i :: 0 <= i < |answers| ==>
          (Score(answers[i]) > 0 <==> IsUsable(answers[i]) && Beats(RankOf(answers[i].info), Rank(0, 0))))
  }

  lemma ScoresAre(answers: seq<Answer>)
    ensures ScoresFit(answers)
  {
    hide RankOf, Score, Beats;
    forall i, j | 0 <= i < |answers| && 0 <= j < |answers| && IsUsable(answers[i]) && IsUsable(answers[j])
      ensures Beats(RankOf(answers[i].info), RankOf(answers[j].info)) <==> Score(answers[i]) > Score(answers[j])
    {
      ScoreOrders(answers[i], answers[j]);
    }
    forall i | 0 <= i < |answers|
      ensures Score(answers[i]) > 0 <==> IsUsable(answers[i]) && Beats(RankOf(answers[i].info), Rank(0, 0))
    {
      ScorePositive(answers[i]);
    }
  }

  lemma BestIsFirst(answers: seq<Answer>, mode: nat)
    requires ScoresFit(answers) && IsBestMode(answers, mode)
    ensures if forall i :: 0 <= i < |answers| ==> Score(answers[i]) == 0 then mode == 0
            else && mode < |answers|
                 && (forall i :: 0 <= i < |answers| ==> Score(answers[i]) <= Score(answers[mode]))
                 && (forall i :: 0 <= i < mode ==> Score(answers[i]) < Score(answers[mode]))
  {
    hide RankOf, Score, Beats;
    var rank :| IsBestFrom(answers, |answers|, Choice(0, Rank(0, 0)), Choice(mode, rank));
  }

  lemma FirstIsBest(answers: seq<Answer>, mode: nat)
    requires ScoresFit(answers)
    requires if forall i :: 0 <= i < |answers| ==> Score(answers[i]) == 0 then mode == 0
             else && mode < |answers|
                  && (forall i :: 0 <= i < |answers| ==> Score(answers[i]) <= Score(answers[mode]))
                  && (forall i :: 0 <= i < mode ==> Score(answers[i]) < Score(answers[mode]))
    ensures IsBestMode(answers, mode)
  {
    hide RankOf, Score, Beats;
    if i :| 0 <= i < |answers| && Score(answers[i]) > 0 {
      assert IsUsable(answers[mode]);
      assert IsBestFrom(answers, |answers|, Choice(0, Rank(0, 0)), Choice(mode, RankOf(answers[mode].info)));
    } else {
      assert IsBestFrom(answers, |answers|, Choice(0, Rank(0, 0)), Choice(0, Rank(0, 0)));
    }
  }

  lemma ScoreOrders(a: Answer, b: Answer)
    requires IsUsable(a) && IsUsable(b)
    ensures Beats(RankOf(a.info), RankOf(b.info)) <==> Score(a) > Score(b)
  {
    ScoreIs(a);
    ScoreIs(b);
    hide Score, RankOf;
  }

  lemma ScoreIs(a: Answer)
    ensures IsUsable(a) ==> Score(a) == RankOf(a.info).area * 33 + RankOf(a.info).depth
    ensures IsUsable(a) ==> RankOf(a.info).depth <= 32
    ensures !IsUsable(a) ==> Score(a) == 0
  {
    hide PixelBpp;
  }

  lemma ScorePositive(a: Answer)
    ensures Score(a) > 0 <==> IsUsable(a) && Beats(RankOf(a.info), Rank(0, 0))
  {
    ScoreIs(a);
    hide Score, RankOf;
  }

  /** What that means for any usable mode with an area: none is chosen that is smaller, or as large
      and less deep, or as good and later; and nothing unusable is chosen but for want of a mode. */
  lemma BestMeans(answers: seq<Answer>, mode: nat, i: nat)
    requires IsBestMode(answers, mode) && i < |answers|
    ensures
      answers[i].Found? && answers[i].info.format < 3
      && answers[i].info.width * answers[i].info.height % 0x1_0000_0000 > 0 ==>
        && mode < |answers| && answers[mode].Found? && answers[mode].info.format < 3
        && var x, y := answers[i].info, answers[mode].info;
        var p, q := x.width * x.height % 0x1_0000_0000, y.width * y.height % 0x1_0000_0000;
        var d, e := PixelBpp(x.format, x.masks), PixelBpp(y.format, y.masks);
        && (p < q || (p == q && d <= e))
        && (i < mode ==> p < q || (p == q && d < e))
    ensures mode != 0 ==> mode < |answers| && answers[mode].Found? && answers[mode].info.format < 3
  {
    hide IsBestMode, Score, PixelBpp;
    BestIsMaximum(answers, mode);
    ScoreZero(answers[i]);
    if mode < |answers| {
      ScoreZero(answers[mode]);
      ScoreSpelled(answers[i], answers[mode]);
    }
    if mode != 0 {
      assert Score(answers[0]) < Score(answers[mode]);
    }
  }

  lemma ScoreZero(a: Answer)
    ensures Score(a) > 0 ==> a.Found? && a.info.format < 3
    ensures a.Found? && a.info.format < 3 && a.info.width * a.info.height % 0x1_0000_0000 > 0 ==> Score(a) > 0
  {
    hide PixelBpp;
  }

  lemma ScoreSpelled(a: Answer, b: Answer)
    ensures a.Found? && a.info.format < 3 && b.Found? && b.info.format < 3 ==>
            var p, q := a.info.width * a.info.height % 0x1_0000_0000, b.info.width * b.info.height % 0x1_0000_0000;
            var d, e := PixelBpp(a.info.format, a.info.masks), PixelBpp(b.info.format, b.info.masks);
            && (Score(a) <= Score(b) ==> p < q || (p == q && d <= e))
            && (Score(a) < Score(b) ==> p < q || (p == q && d < e))
  {
    hide PixelBpp;
  }

  /** Wherever a mode is offered, the mode chosen is at least as large. */
  ghost predicate IsHeeded(h: ModeInfo) {
    forall answers: seq<Answer>, mode: nat, i ::
      IsBestMode(answers, mode) && 0 <= i < |answers| && answers[i] == Found(h) ==>
      mode < |answers| && IsUsable(answers[mode]) && Area(h) <= Area(answers[mode].info)
  }

  /** A usable mode with any area is heeded if and only if its area is below 2^32. */
  lemma AreaLaw(h: ModeInfo)
    requires IsUsable(Found(h)) && Area(h) > 0
    ensures IsHeeded(h) <==> Area(h) < U32_LIMIT
  {
    if Area(h) < U32_LIMIT {
      forall answers: seq<Answer>, mode: nat, i |
        IsBestMode(answers, mode) && 0 <= i < |answers| && answers[i] == Found(h)
        ensures mode < |answers| && IsUsable(answers[mode]) && Area(h) <= Area(answers[mode].info)
      {
        BestIsLarge(answers, mode, i);
      }
    } else {
      RivalWins(h);
      var answers := [Found(RIVAL), Found(h)];
      assert answers[1] == Found(h) && Area(answers[0].info) < Area(h);
    }
  }

  lemma BestIsLarge(answers: seq<Answer>, mode: nat, i: nat)
    requires IsBestMode(answers, mode) && i < |answers| && IsUsable(answers[i])
    requires 0 < Area(answers[i].info) < U32_LIMIT
    ensures mode < |answers| && IsUsable(answers[mode]) && Area(answers[i].info) <= Area(answers[mode].info)
  {
    hide Area, PixelBpp;
    var rank :| IsBestFrom(answers, |answers|, Choice(0, Rank(0, 0)), Choice(mode, rank));
    assert RankOf(answers[i].info).area == Area(answers[i].info);
    assert Beats(RankOf(answers[i].info), Rank(0, 0));
    assert RankOf(answers[mode].info).area <= Area(answers[mode].info);
  }

  /** The largest area whose 32-bit product is right. */
  const RIVAL := ModeInfo(0xffff, 0x1_0001, 0, PixelMasks(0, 0, 0, 0), 1)

  lemma RivalWins(h: ModeInfo)
    ensures IsBestMode([Found(RIVAL), Found(h)], 0) && Area(RIVAL) == U32_LIMIT - 1
  {
    hide PixelBpp;
    var answers, best := [Found(RIVAL), Found(h)], Rank(0xffff_ffff, 32);
    assert RankOf(RIVAL) == best && Beats(best, Rank(0, 0));
    assert !Beats(RankOf(h), best);
    assert IsBestFrom(answers, 2, Choice(0, Rank(0, 0)), Choice(0, best));
  }

  const TINY := ModeInfo(1, 1, 0, PixelMasks(0, 0, 0, 0), 1)
  const HUGE := ModeInfo(0x1_0000, 0x1_0000, 0, PixelMasks(0, 0, 0, 0), 0x1_0000)

  /** A mode of 65536 by 65536 pixels, whose 32-bit area is 0, loses to one of 1 by 1. */
  lemma HugeLoses()
    ensures IsBestMode([Found(HUGE), Found(TINY)], 1) && IsUsable(Found(HUGE)) && Area(HUGE) > Area(TINY)
  {
    var answers := [Found(HUGE), Found(TINY)];
    assert RankOf(HUGE) == Rank(0, 32) && RankOf(TINY) == Rank(1, 32);
    assert IsUsable(answers[1]) && Beats(RankOf(answers[1].info), Rank(0, 0));
    assert IsBestFrom(answers, 2, Choice(0, Rank(0, 0)), Choice(1, Rank(1, 32)));
  }
}
