# Verification of the UEFI boot stub's algorithms

This project models the parts of the boot stub that compute something, in Dafny 4.11, and
proves what they compute.  `dafny verify dfyconfig.toml` checks all of it.

* `Unicode`, `Console`, `Text`: the console.  `Unicode` defines UTF-8 (section 3 of RFC 3629),
  UTF-16 (section 2.1 of RFC 2781) and `Step`, what one decoding step has to return, without
  reference to the decoder.  `Console` holds the decoder and the buffered transcoder, with its
  128-word buffer and its flushes in the middle of a string, proved equal to an unbuffered
  recursive transcoder on every NUL-terminated input.  `Text` says what that means for valid
  text.
* `Numerals`, `CStrings`, `Convert`, `Printing`, `Sizes`: numbers and C strings.  `Numerals`
  defines the text of a number in a base and its parser; `Convert` holds the three conversion
  algorithms, proved to write that text; `CStrings` the string functions on shared buffers;
  `Printing` and `Sizes` what is shown on the console for numbers and sizes; `Bytes` the octet of
  a `char`.
* `PciBar`, `PciLayout`: probing base address registers (section 6.2.5.1 of the PCI Local Bus
  Specification 3.0; the enable bits of the command register are those of section 6.2.2).
  `PciBar` is the probing loop over a function whose registers have writable and fixed bits and
  any of whose accesses may fail, with a record of every intermediate state.  `PciLayout` says
  which listing is right for a layout of BARs, and when the loop prints it.
* `Masks`, `Gop`: channel masks, pixel depth, the choice of a graphics mode and the description of
  the frame buffer.
* `Sequences`: NUL-terminated sequences and a few laws of concatenation.

A C pointer into a buffer is an array and an offset.  Octets and words are bit-vectors of their
width in the console, the PCI code and the masks.  64-bit numbers are integers below 2^64 in the
conversions, where every shift, multiplication and subtraction carries its wrap-around; a `char`
is an integer from -128 to 127, as it is signed on the target.  `unsigned long` has 32 bits on
the target, so the address masks of the PCI code have too.  The console is a class that
collects the chunks it is given; the PCI function is a class whose methods write its registers;
the graphics protocol is a class that hands out information buffers and takes them back.

Where the code differs from what it says or is there for, a law says exactly when, and a lemma
gives an input:

* The surrogate test of the decoder (uefistub/console.c:49) looks at the low 16 bits, so it
  rejects U+1D800..U+1DFFF and the same slot of every higher plane as well.  `Text.ShownAsMeant`
  proves that text is shown as meant if and only if it has no such character;
  `Text.MaskedIsLost` is U+1D800.
* `strlen` (utils/string.c:76-79) stops at 2^31 - 1 characters.  `CStrings.StrcatMeaning` proves
  that `strcat` concatenates if and only if neither string is longer; `CStrings.LongIsCut` is a
  string of 2^31 characters.
* If the write that disables a 64-bit BAR fails, the loop goes on with the upper half as a BAR
  of its own (uefistub/stub.c:239-242).  `PciLayout.WalkIsListing` proves that the listing is
  right if and only if that happens only where the upper half is zero or refused too;
  `PciLayout.HalfListed` is one 64-bit BAR at 4 GiB.
* A failing read gives all ones (uefistub/stub.c:81), which are written back as if they were the
  old value, and the status of every access but the disabling write is ignored.
  `PciBar.RegistersLaw` proves that the registers end as they began if and only if each register
  that is probed has no writable zero bit, or was never changed, or was read and restored;
  `PciBar.FailedReadLoses` is a memory BAR whose first read fails.
* The area of a mode is a 32-bit product (uefistub/gop.c:220).  `Gop.AreaLaw` proves of each mode
  that the mode chosen is always at least as large if and only if its own area is below 2^32;
  `Gop.HugeLoses` is a mode of 65536 by 65536 pixels.
* The line length is stored in 16 bits and computed from the sum of the channel sizes
  (uefistub/gop.c:329-332), not from the depth of uefistub/gop.c:63.  `Gop.LineLaw` proves that it
  is the length of a line if and only if that is below 64 KiB and, for lines of 8 pixels or more,
  the channels together leave no gap; `Gop.WideLineLost` and `Gop.SparseLineShort` are two modes.
* The frame size is the product of two 16-bit fields as `int` (uefistub/gop.c:351), undefined above
  2^31 - 1.  `Gop.FrameLaw` proves when it is the size of the frame; `Gop.LargeFrameLost` is a mode
  for which it is undefined.

## Model

| member | source | states |
|---|---|---|
| `Console.Utf8ToUtf32` | uefistub/console.c:14-56 | for every octet string with a NUL at or after the position, valid or not, the decoder returns the code point and advances by the length that `Unicode.Step` demands, and never past the NUL |
| `Unicode.StepExact` | uefistub/console.c:30-55 | in numbers: a step of several octets returns a code point if and only if it is at least 0x80, at most 0x10ffff, its low 16 bits are not in 0xd800..0xdfff, and those octets are its shortest form; a step of one octet returns that octet if and only if no such form comes next |
| `Unicode.Examples` | uefistub/console.c:14-56 | the examples of RFC 3629 and RFC 2781 come out, and the octets of U+1F600 decode to it |
| `Console.StepFacts` | uefistub/console.c:30-52 | a non-NUL octet never decodes to NUL or to a surrogate, LF comes from LF alone, and a step stops short of the next NUL |
| `Text.DecodeEncode` | uefistub/console.c:14-56 | decoding the UTF-8 form of any scalar value, whatever follows, gives it back if and only if it is below 0x10000 or its low 16 bits are not in 0xd800..0xdfff; else it gives the raw lead octet |
| `Console.TextOutput.EfiPuts` | uefistub/console.c:59-87 | for every NUL-terminated input the chunks shown, put together, are the output of the unbuffered transcoder; each has 1 to 127 words, no NUL, whole surrogate pairs, a CR before every LF, and only the last has fewer than 126 words |
| `Console.ChunksMean` | uefistub/console.c:62-85 | in numbers: a chunk has at most 127 words and, but for the last, at least 126; it has no NUL, no lone surrogate and no LF without a CR |
| `Console.PutCode` | uefistub/console.c:72-81 | the words appended to the buffer for any code point, each cut to 16 bits, are its UTF-16 form of RFC 2781 |
| `Text.ShownAsMeant` | uefistub/console.c:14-87 | for every sequence of non-zero scalar values, the output for its UTF-8 form is its UTF-16 form with CR before each LF if and only if each value is below 0x10000 or its low 16 bits are not in 0xd800..0xdfff |
| `Text.MaskedIsLost` | uefistub/console.c:49 | U+1D800 as text is not shown as its UTF-16 form |
| `Text.RoundTrip16` | uefistub/console.c:73-80 | UTF-16 text decodes (section 2.2 of RFC 2781) to the code points it was made from |
| `Convert.NaiveConvert` | utils/string.c:177-197 | writes the text of the value in any base from 2 to 36 and its terminator, returns its length, leaves the rest of the buffer alone; 64 digits are enough |
| `Convert.BitwiseConvert` | utils/string.c:200-221 | the same for the base with digits of 1 to 5 bits, whether or not that divides 64 |
| `Convert.ToDecimal` | utils/string.c:224-248 | the same for base 10 |
| `Convert.U64ToStr` | utils/string.c:251-272 | the same for every supported base, 0 standing for 10; for any other base the string is empty and 0 is returned |
| `Convert.SupportedBases` | utils/string.c:251-272 | 0 stands for 10; 2, 8, 10, 16 and 36 stand for themselves; for any other base nothing is written |
| `Numerals.NumeralSound` | utils/string.c:177-248 | a numeral stands for its number, has digits below the base and no leading zero unless it is one digit |
| `Numerals.NumeralComplete` | utils/string.c:177-248 | no other such digit string stands for the same number |
| `Numerals.TextRoundTrip` | include/string.h:186-203 | the text of a number reads back as the number, and is the only text without superfluous leading zeros that does |
| `Numerals.TextBounds` | include/string.h:192-199 | texts of 64-bit numbers have at most 64, 22, 20, 16 and 13 characters in bases 2, 8, 10, 16 and 36, and the largest number attains each bound |
| `Numerals.KnownTexts` | utils/string.c:177-248 | digits are the characters 48 to 57 and 97 to 122; the texts of 255 in bases 10, 16 and 36 |
| `Convert.ConvertedReadsBack` | include/string.h:186-203 | the string left in the buffer has the returned length and reads back as the value; all other characters are unchanged |
| `Convert.OrderEmbedding` | utils/string.c:111-132 | for any two buffers that hold texts in one base, a number is smaller exactly when its text is shorter, or as long and smaller by `strncmp` |
| `CStrings.Memset` | utils/string.c:7-17 | fills the stretch with the converted byte and leaves the rest alone |
| `CStrings.ToCharIs` | utils/string.c:7-17 | the byte stored is the `char` congruent to the argument modulo 256 |
| `CStrings.Mempcpy` | utils/string.c:21-31 | copies the stretch, also within one buffer if the areas are apart, and leaves the rest alone |
| `CStrings.Strnlen` | utils/string.c:61-73 | the smaller of the string length and the limit |
| `CStrings.Strlen` | utils/string.c:76-79 | the string length if that is at most 0x7fffffff, else 0x7fffffff |
| `CStrings.Stpcpy` | utils/string.c:96-101 | copies the string and its terminator, returns the position of the terminator, leaves the rest alone |
| `CStrings.Strcat` | utils/string.c:163-167 | leaves the old string followed by the source string, both as far as `strlen` sees them, and every other character unchanged |
| `CStrings.StrcatMeaning` | utils/string.c:76-79 | the string `strcat` leaves is the concatenation if and only if neither string is longer than 2^31 - 1 |
| `CStrings.LongIsCut` | utils/string.c:76-79 | a string of 2^31 characters, whatever is appended to it, is not followed by what is appended |
| `CStrings.Strncmp` | utils/string.c:111-132 | the difference of the characters where the strings first differ or both end, 0 at the limit |
| `CStrings.CompareZero` | utils/string.c:111-132 | 0 exactly when the strings agree up to NUL or the limit |
| `CStrings.CompareSwap` | utils/string.c:111-132 | exchanging the strings negates the result |
| `CStrings.CompareTransitive` | utils/string.c:111-132 | the comparison is transitive, and strictly so where one of the two steps is strict |
| `CStrings.Strnrev` | utils/string.c:141-154 | reverses the stretch in place and leaves the rest alone |
| `CStrings.Strrev` | utils/string.c:157-160 | reverses the string in place |
| `CStrings.ReverseTwice` | utils/string.c:141-154 | reversing twice gives the string back |
| `Printing.EfiPutd` | uefistub/console.c:106-111 | the console shows the decimal text of the value, word by word |
| `Printing.EfiPuth` | uefistub/console.c:115-120 | the console shows the hexadecimal text of the value |
| `Printing.EfiPut0h` | uefistub/console.c:123-137 | the console shows the hexadecimal text with zeros in front up to the digits asked for, through reversing, padding and reversing again |
| `Printing.ZeroPadMeaning` | uefistub/console.c:123-137 | the padded text has the larger of the two lengths and reads back as the value |
| `Printing.PlainShown` | uefistub/console.c:59-87 | plain ASCII text is shown character by character |
| `Bytes.OctetCode` | uefistub/console.c:59-66 | an octet of a string is its `char` modulo 256 |
| `Sizes.PrintSize` | uefistub/stub.c:117-137 | shows the size in bytes unless it is a multiple of 1024, else in the first unit in which it is at most 1024 or the last unit |
| `Sizes.ShownSizeMeans` | uefistub/stub.c:117-137 | whatever is shown for a size reads back, number and unit B, kB, MB, GB or TB as 1, 2^10, 2^20, 2^30 or 2^40 bytes, as the size rounded down to the unit: exactly for a power of two and, in B, for a size that is no multiple of 1024; for any other size the number is at most 1024 but in TB, and more than 1024 in the unit below |
| `Sizes.UnitUnique` | uefistub/stub.c:127-134 | the unit is determined by the size |
| `PciBar.PciFunction.PrintBars` | uefistub/stub.c:232-325 | for all register contents, all writable masks and every choice of failing accesses (each disabling and enabling write, each read, each write of ones or of the old value): the lines printed are those of the walk, the registers end as `After` says, and the command register ends as it began unless the last enabling write failed; in every state on the way only the enable bits have changed in the command register and registers are written only while they are off; if every probed register is kept, the enables are off whenever a register differs, and if no enabling write fails either, everything is restored before anything is printed |
| `PciBar.SafeMeans` | uefistub/stub.c:233-302 | in numbers: in every state on the way the command register agrees with the one found in the bits 0xfff8, and whenever a register is written, or differs though all are kept, its three enable bits are those stuck at one |
| `PciBar.SafePrintMeans` | uefistub/stub.c:298-304 | if all registers are kept and no enabling write fails, registers and command register are as found whenever something is printed |
| `PciBar.DisabledBits` | uefistub/stub.c:233-238 | in numbers: disabling leaves the bits 0xfff8 of the command register as they were, whatever the mask |
| `PciBar.PciFunction.ProbeBar` | uefistub/stub.c:244-294 | one slot, or two for a 64-bit BAR, whatever accesses fail: line, next slot and registers left as specified, every state on the way safe |
| `PciBar.KindOf` | uefistub/stub.c:263-290 | in numbers, for any register whose cycle succeeds: I/O if bit 0 reads as 1; else 64-bit, with the next slot skipped, if and only if bits 1 and 2 read back as 4; prefetchable if and only if bit 3 reads back as 1 |
| `PciBar.KindOfFixed` | uefistub/stub.c:263-290 | the same by the value alone where the four type bits cannot be written |
| `PciBar.UnlistedIs` | uefistub/stub.c:304 | a register that does not read as zero is not listed if and only if it is I/O with no address bit set when read back, or 64-bit memory with none in either half |
| `PciBar.RemainsIs` | uefistub/stub.c:264-266 | write ones, read back, restore, each of which may fail: the register is as before if and only if it had no writable zero bit, or was never changed, or was read and restored |
| `PciBar.RegistersLaw` | uefistub/stub.c:232-325 | for every choice of failing accesses the registers end as they began if and only if every register that is probed is kept in that sense |
| `PciBar.RefusalsKeep` | uefistub/stub.c:232-325 | if at most disabling writes fail, registers and command register end as they began |
| `PciBar.FailedReadLoses` | uefistub/stub.c:79-84 | a memory BAR whose first read fails is left with other contents |
| `PciBar.OffMeansZero` | uefistub/stub.c:233-238 | with no enable bit stuck at one, off means that I/O, memory and bus master enable are all 0 |
| `PciLayout.IoArithmetic` | uefistub/stub.c:263-268 | an I/O BAR of any size from 4 bytes to 2 GiB: its base and its size are computed |
| `PciLayout.Mem32Arithmetic` | uefistub/stub.c:270-293 | a 32-bit memory BAR of any size from 16 bytes to 2 GiB: kind, base and size |
| `PciLayout.Mem64Arithmetic` | uefistub/stub.c:274-293 | a 64-bit memory BAR of any size from 16 bytes to 2^63, also where the lower half has no address bits: kind, base and size |
| `PciLayout.FixedBitsAre` | uefistub/stub.c:263-276 | in numbers: the type bits of the layouts are 1 for I/O, 0, 2, 8 or 10 for 32-bit memory, 4 or 12 for 64-bit memory, and cannot be written |
| `PciLayout.ProbeDescribes` | uefistub/stub.c:244-322 | probing a BAR of a layout gives its correct line, unless its register is zero, and goes on right after it |
| `PciLayout.WalkIsListing` | uefistub/stub.c:232-325 | for every layout and every set of failing disabling writes, the lines are the correct listing if and only if no 64-bit BAR in use fails at its first slot alone |
| `PciLayout.HalfListed` | uefistub/stub.c:239-242 | one 64-bit BAR at 4 GiB of which only the first disabling write fails: a BAR is listed where nothing should be |
| `PciLayout.EveryBarListed` | uefistub/stub.c:232-325 | with no failing write, every BAR with a non-zero register is listed exactly once, in order, and nothing else is |
| `PciLayout.KnownFunction` | uefistub/stub.c:232-325 | the registers of a 64-bit BAR of 16 KiB at 4 GiB and of an I/O BAR of 32 bytes are walked as these two lines |
| `Gop.FindBits` | uefistub/gop.c:70-81 | any mask but 0 is an odd word of `size` bits moved up by `position`, and `size` ones if it is contiguous, within 32 bits; the empty mask gives 0 and 0 |
| `Gop.PixelBpp` | uefistub/gop.c:56-67 | 32 for the fixed formats; for a bit mask format 0 if the masks are empty, else at least the number of bits in their union and equal to it if and only if the union is contiguous; never above 32 |
| `Gop.DepthAgrees` | uefistub/gop.c:323-330 | for channels that share no bit, the stored depth is the depth of the union if and only if the union has no gap |
| `Gop.GapLowersDepth` | uefistub/gop.c:323-330 | masks 0xff, 0xff00 and 0xff000000 are channels with a gap, and their stored depth 24 is less than the depth of the union |
| `Gop.ScreenInfo.Setup` | uefistub/gop.c:316-351 | in numbers: width and height modulo 65536; for format 0 the bytes of a pixel composed at the stored positions are red, green, blue, for format 1 blue, green, red, of 8 bits each in 32; for format 2 the fields are those of the masks; the line length as 32-bit arithmetic and a 16-bit field leave it; the frame size is the product of line length and height up to 0x7fffffff, else undefined |
| `Gop.LineLaw` | uefistub/gop.c:319-348 | for every mode with channels, whatever its format: the stored line length is never too long; it is the scan line times the depth of uefistub/gop.c:63 in bytes if and only if that is below 65536 and the stored depth accounts for all of it, which for 8 pixels or more holds just if the channels together leave no gap |
| `Gop.FrameLaw` | uefistub/gop.c:351 | the stored frame size is line length times height if and only if that is 0, or at most 2^31 - 1 with height and line length below 65536 and the line accounted for |
| `Gop.WideLineLost` | uefistub/gop.c:347 | a line of 65536 bytes is stored as 0 |
| `Gop.SparseLineShort` | uefistub/gop.c:329-332 | 800 pixels of channels with a gap are stored as a line of 2400 bytes, which is too short |
| `Gop.LargeFrameLost` | uefistub/gop.c:351 | a frame whose lines and height fit 16 bits, for which the product overflows `int` |
| `Masks.SpanIsCount` | uefistub/gop.c:78-80 | from the lowest to the highest set bit there are as many places as set bits if and only if the mask is contiguous |
| `Gop.ChooseMode` | uefistub/gop.c:84-110 | from any contents of the context and with any buffers out: the context ends with the first best mode among those that beat what it held, or as it was; one buffer is obtained for each mode that can be queried, none is freed twice, and just the buffers out before are out afterwards |
| `Gop.FoundModesAre` | uefistub/gop.c:95-107 | buffers are obtained for exactly the modes that can be queried, once each and in order |
| `Gop.Match.HighestRes` | uefistub/gop.c:216-237 | the context takes a mode over just if it is usable and beats the best so far; `Gop.ScoreOrders` says in numbers what that means |
| `Gop.ScoreOrders` | uefistub/gop.c:226-234 | one usable mode beats another if and only if its score is higher: 32-bit area times 33 plus depth |
| `Gop.ChooseHighestRes` | uefistub/gop.c:240-245 | for every list of modes and failing queries: the first usable mode of the greatest 32-bit area and, within that, depth, or 0 if none has any; every buffer obtained is freed |
| `Gop.BestIsMaximum` | uefistub/gop.c:205-245 | the mode chosen is exactly the first of the highest score among the found modes of format 0, 1 or 2, or 0 if none has a score |
| `Gop.BestMeans` | uefistub/gop.c:205-245 | for every found mode of format 0, 1 or 2 with an area: the mode chosen is a found mode of format 0, 1 or 2, of a greater 32-bit area, or the same and no less depth, and strictly better if it comes later; a mode of another format is chosen only as the default 0 |
| `Gop.BestUnique` | uefistub/gop.c:205-245 | the best mode and its rank are determined by the answers and what the context held |
| `Gop.AreaLaw` | uefistub/gop.c:213-237 | for each usable mode with any area: wherever it is offered the mode chosen is at least as large, if and only if its own area is below 2^32 |
| `Gop.HugeLoses` | uefistub/gop.c:220 | a mode of 65536 by 65536 pixels loses to one of 1 by 1 |

## Left out

- A failing access is taken to have no effect: a write that reports failure changes nothing, and a read that does leaves the variable alone.
- I/O BARs that decode only 16 address bits: the size computed for them is not that of the BAR (uefistub/stub.c:268), and they are not in the layouts of `PciLayout`.
- ChooseMode: the callback is a function pointer in the source; here it is the one callback that keeps state, and the listing callback of the debug build is not modelled.
- EfiPut0h: digits above 16, for which the source indexes before its buffer.
- The text around the numbers in the device listing and the switch over device classes: a printed line is a record of what it says.
- The header type test, the location and the class of a PCI function (uefistub/stub.c:144-230): reads and text.
- LineLaw: nothing is said of masks whose channels overlap or have gaps of their own, which the UEFI specification rules out; the same goes for FrameLaw. `Gop.ScreenInfo.Setup` covers them too.
- Looking up protocols, setting the mode, the frame buffer base, filling the frame buffer: firmware calls and a plain copy.
- Waiting for a key, resetting and colouring the console, choosing its text mode: firmware calls.
- uefistub/memory.c and the alignment macros: wrappers of boot services.
- memcmp, memcpy, strncpy, strcpy, strcmp: wrappers of, or simpler than, functions modelled here.
- The instructions behind `__ffs` and `__fls`: they are functions of the word here.
