/** uefistub/console.c: the one-step decoder and the buffered transcoder. */
module Console {
  import opened Unicode
  import opened Sequences

  /** The operations on octets of the decoder. */
  predicate IsHighSet(b: bv8) { b & 0x80 != 0 }

  function Doubled(b: bv8): bv8 { b << 1 }

  function Flipped(b: bv8): bv8 { b ^ 0x80 }

  predicate HasMark(b: bv8) { b & 0xc0 != 0 }

  function Widened(b: bv8): bv32 { b as bv32 }

  /** `b` after `n` rounds of the length loop. */
  function Shifted(b: bv8, n: nat): bv8 {
    if n == 0 then b else Doubled(Shifted(b, n - 1))
  }

  predicate TopBit(b: bv8, j: nat) { IsHighSet(Shifted(b, j)) }

  lemma ShiftedIs(b: bv8)
    ensures Shifted(b, 1) == b << 1 && Shifted(b, 2) == b << 2
    ensures Shifted(b, 3) == b << 3 && Shifted(b, 4) == b << 4
    ensures Shifted(b, 8) == 0
  {
    assert Shifted(b, 1) == Doubled(Shifted(b, 0));
    assert Shifted(b, 2) == Doubled(Shifted(b, 1));
    assert Shifted(b, 3) == Doubled(Shifted(b, 2));
    assert Shifted(b, 4) == Doubled(Shifted(b, 3));
    assert Shifted(b, 5) == Doubled(Shifted(b, 4));
    assert Shifted(b, 6) == Doubled(Shifted(b, 5));
    assert Shifted(b, 7) == Doubled(Shifted(b, 6));
  }

  /** `cx` is what the length loop has made of `b` after `n` rounds. */
  ghost predicate Counted(b: bv8, n: nat, cx: bv8) {
    n <= 8 && cx == Shifted(b, n) && forall j :: 0 <= j < n ==> TopBit(b, j)
  }

  lemma CountStart(b: bv8)
    ensures Counted(b, 0, b)
  {
  }

  /** One round of the length loop, which a zero octet ends after at most eight. */
  lemma CountRound(b: bv8, n: nat, cx: bv8)
    requires Counted(b, n, cx) && IsHighSet(cx)
    ensures n < 8 && Counted(b, n + 1, Doubled(cx))
  {
    ShiftedIs(b);
  }

  function ShiftRight(b: bv8, n: nat): bv8
    requires n <= 8
  {
    b >> n
  }

  function Payload(s: seq<bv8>, lead: bv8, i: nat): bv32
    requires i < |s|
  {
    if i == 0 then lead as bv32 else Append6(Payload(s, lead, i - 1), s[i])
  }

  /** Octets 1 to `n` are trailing octets and `c` holds their payload after that of `lead`. */
  ghost predicate Trails(s: seq<bv8>, lead: bv8, n: nat, c: bv32) {
    n < |s| && (forall j :: 0 < j <= n ==> IsTrail(s[j])) && c == Payload(s, lead, n)
  }

  /** `lead` holds the payload bits of the first octet of a `k` octet form. */
  predicate LeadBits(b: bv8, k: nat, lead: bv8) {
    IsLead(b, k) && lead == (if k == 2 then b & 0x1f else if k == 3 then b & 0x0f else b & 0x07)
  }

  lemma PayloadUnfolds(s: seq<bv8>, lead: bv8, k: nat)
    requires k <= |s| && s != [] && LeadBits(s[0], k, lead)
    ensures k == 2 ==> Payload(s, lead, 1) == Payload2(s[0], s[1])
    ensures k == 3 ==> Payload(s, lead, 2) == Payload3(s[0], s[1], s[2])
    ensures k == 4 ==> Payload(s, lead, 3) == Payload4(s[0], s[1], s[2], s[3])
  {
    assert Payload(s, lead, 1) == Append6(Payload(s, lead, 0), s[1]);
    if k > 2 {
      assert Payload(s, lead, 2) == Append6(Payload(s, lead, 1), s[2]);
    }
  }

  /** The final test: out of range, a surrogate, or the wrong number of trailing octets. */
  predicate IsInvalid(c: bv32, clen: nat) {
    c > 0x10ffff || c & 0xf800 == 0xd800 || clen != Trailing(c)
  }

  lemma TrailingRange(c: bv32)
    ensures Trailing(c) == 1 ==> 0x80 <= c < 0x800
    ensures Trailing(c) == 2 ==> 0x800 <= c < 0x10000
    ensures Trailing(c) == 3 ==> 0x10000 <= c
    ensures IsAccepted(c) ==> |Utf8(c)| == Trailing(c) + 1
  {
  }

  lemma Accept2(s: seq<bv8>, c: bv32)
    requires 2 <= |s| && IsLead(s[0], 2) && IsTrail(s[1])
    requires c == Payload2(s[0], s[1]) && 0x80 <= c && IsAccepted(c)
    ensures Step(s) == (c, 2)
  {
    Join2(s[0], s[1], c);
    assert Utf8(c) == s[..2];
    StepIs(s, c);
  }

  lemma Accept3(s: seq<bv8>, c: bv32)
    requires 3 <= |s| && IsLead(s[0], 3) && IsTrail(s[1]) && IsTrail(s[2])
    requires c == Payload3(s[0], s[1], s[2]) && 0x800 <= c && IsAccepted(c)
    ensures Step(s) == (c, 3)
  {
    Join3(s[0], s[1], s[2], c);
    assert Utf8(c) == s[..3];
    StepIs(s, c);
  }

  lemma Accept4(s: seq<bv8>, c: bv32)
    requires 4 <= |s| && IsLead(s[0], 4) && IsTrail(s[1]) && IsTrail(s[2]) && IsTrail(s[3])
    requires c == Payload4(s[0], s[1], s[2], s[3]) && 0x10000 <= c && IsAccepted(c)
    ensures Step(s) == (c, 4)
  {
    Join4(s[0], s[1], s[2], s[3], c);
    assert Utf8(c) == s[..4];
    StepIs(s, c);
  }

  /** Octets that pass the range, surrogate and length tests are the shortest form they spell. */
  lemma AcceptedIsShortest(s: seq<bv8>, lead: bv8, k: nat, c: bv32)
    requires k <= |s| && s != [] && LeadBits(s[0], k, lead)
    requires forall j :: 0 < j < k ==> IsTrail(s[j])
    requires c == Payload(s, lead, k - 1) && IsAccepted(c) && Trailing(c) == k - 1
    ensures Step(s) == (c, k)
  {
    PayloadUnfolds(s, lead, k);
    TrailingRange(c);
    if k == 2 {
      Accept2(s, c);
    } else if k == 3 {
      Accept3(s, c);
    } else {
      Accept4(s, c);
    }
  }

  /** Octets that fail one of those tests are not the start of any shortest form. */
  lemma RefusedIsRaw(s: seq<bv8>, lead: bv8, k: nat, c: bv32)
    requires k <= |s| && s != [] && LeadBits(s[0], k, lead)
    requires c == Payload(s, lead, k - 1) && !(IsAccepted(c) && Trailing(c) == k - 1)
    ensures Step(s) == (s[0] as bv32, 1)
  {
    forall d | Starts(s, d) ensures false {
      StartsForces(s, d);
      PayloadUnfolds(s, lead, k);
    }
  }

  /** The length loop ends with the number of octets, or with proof that the octet is raw. */
  lemma CountEnd(s: seq<bv8>, n: nat, cx: bv8)
    requires s != [] && Counted(s[0], n, cx) && !IsHighSet(cx)
    ensures if n < 2 || n > 4 then Step(s) == (Widened(s[0]), 1)
            else s[0] != 0 && LeadBits(s[0], n, ShiftRight(cx, n))
  {
    var b := s[0];
    ShiftedIs(b);
    assert TopBit(b, 0) <==> b & 0x80 != 0;
    assert TopBit(b, 1) <==> b & 0x40 != 0;
    assert TopBit(b, 2) <==> b & 0x20 != 0;
    assert TopBit(b, 3) <==> b & 0x10 != 0;
    assert TopBit(b, 4) <==> b & 0x08 != 0;
    if n < 2 || n > 4 {
      forall c | Starts(s, c) ensures false { StartsForces(s, c); }
    }
  }

  lemma RawTrail(s: seq<bv8>, lead: bv8, k: nat, j: nat)
    requires 0 < j < k && j < |s| && LeadBits(s[0], k, lead) && HasMark(Flipped(s[j]))
    ensures Step(s) == (Widened(s[0]), 1)
  {
    forall c | Starts(s, c) ensures false { StartsForces(s, c); }
  }

  lemma TrailStart(s: seq<bv8>, lead: bv8)
    requires s != []
    ensures Trails(s, lead, 0, Widened(lead))
  {
  }

  /** One round of the trailing octet loop. */
  lemma TrailXor(b: bv8)
    ensures !HasMark(Flipped(b)) <==> IsTrail(b)
    ensures IsTrail(b) ==> b != 0 && Flipped(b) == b & 0x3f
  {
  }

  lemma TrailRound(s: seq<bv8>, lead: bv8, i: nat, c: bv32)
    requires i + 1 < |s| && Trails(s, lead, i, c)
    ensures !HasMark(Flipped(s[i + 1])) ==>
      s[i + 1] != 0 && Trails(s, lead, i + 1, Push6(c, Flipped(s[i + 1])))
  {
    hide Push6, IsTrail, HasMark, Flipped;
    TrailXor(s[i + 1]);
  }

  /** The validity tests decide between the code point and the raw octet. */
  lemma ValidityTests(s: seq<bv8>, lead: bv8, n: nat, c: bv32)
    requires s != [] && n < |s| && LeadBits(s[0], n + 1, lead) && Trails(s, lead, n, c)
    ensures Step(s) == if IsInvalid(c, n) then (Widened(s[0]), 1) else (c, n + 1)
  {
    if IsAccepted(c) && Trailing(c) == n {
      AcceptedIsShortest(s, lead, n + 1, c);
    } else {
      RefusedIsRaw(s, lead, n + 1, c);
    }
  }

  /** Converts the octets at `s8` to one UTF-32 code point and advances past them. */
  method Utf8ToUtf32(str: seq<bv8>, s8: nat) returns (c32: bv32, next: nat)
    requires s8 < |str| && str[|str| - 1] == 0
    ensures next <= |str| && (c32, next - s8) == Step(str[s8..])
  {
    hide *;
    ghost var s := str[s8..];
    var c0 := str[s8];
    var cx := c0;
    next := s8 + 1;

    var clen := 0;
    CountStart(c0);
    while IsHighSet(cx)
      invariant Counted(c0, clen, cx) && clen <= 8
      decreases 8 - clen
    {
      CountRound(c0, clen, cx);
      cx := Doubled(cx);
      clen := clen + 1;
    }
    CountEnd(s, clen, cx);
    if clen < 2 || clen > 4 {
      return Widened(c0), next;
    }

    c32 := Widened(ShiftRight(cx, clen));
    ghost var lead, k := ShiftRight(cx, clen), clen;
    clen := clen - 1;
    var i := 0;
    TrailStart(s, lead);
    while i < clen
      invariant 0 <= i <= clen && i < |s| && s[i] != 0
      invariant Trails(s, lead, i, c32)
    {
      TrailRound(s, lead, i, c32);
      assert str[next + i] == s[i + 1];
      cx := Flipped(str[next + i]);
      if HasMark(cx) {
        RawTrail(s, lead, k, i + 1);
        return Widened(c0), next;
      }
      c32 := Push6(c32, cx);
      i := i + 1;
    }

    ValidityTests(s, lead, clen, c32);
    if IsInvalid(c32, clen) {
      return Widened(c0), next;
    }
    next := next + clen;
  }

  /** The words one code point is shown as: its UTF-16 form, with a CR in front of a LF. */
  function Emit(c: bv32): (w: seq<bv16>)
    requires c <= 0x10ffff
    ensures 1 <= |w| <= 2
  {
    if c == 10 then [CR, LF] else Utf16(c)
  }

  /** The unbuffered transcoder: everything up to the first NUL, one decoding step at a time. */
  ghost function Transcode(s: seq<bv8>): seq<bv16>
    decreases |s|
  {
    if s == [] || s[0] == 0 then
      []
    else
      StepFacts(s);
      Emit(Step(s).0) + Transcode(s[Step(s).1..])
  }

  /** A non-NUL octet never decodes to NUL or to a surrogate, LF only comes from LF, and a
      step stops short of the next NUL. */
  lemma StepFacts(s: seq<bv8>)
    requires s != [] && s[0] != 0
    ensures IsScalar(Step(s).0) && Step(s).0 != 0
    ensures Step(s).0 == 10 <==> s[0] == 10
    ensures forall j :: 0 <= j < Step(s).1 ==> s[j] != 0
  {
    if c :| Starts(s, c) {
      StepIs(s, c);
      StartsForces(s, c);
    }
  }

  /** Words that can stand alone: no NUL, whole surrogate pairs, and a CR before every LF. */
  ghost predicate IsClean(w: seq<bv16>) {
    && (forall i :: 0 <= i < |w| ==> w[i] != 0)
    && WellFormed16(w)
    && (forall i :: 0 <= i < |w| && w[i] == LF ==> 0 < i && w[i - 1] == CR)
  }

  lemma EmitIsClean(c: bv32)
    requires IsScalar(c) && c != 0
    ensures IsClean(Emit(c))
  {
  }

  lemma CleanAppend(a: seq<bv16>, b: seq<bv16>)
    requires IsClean(a) && IsClean(b)
    ensures IsClean(a + b)
  {
  }

  function Flatten(chunks: seq<seq<bv16>>): seq<bv16> {
    if chunks == [] then [] else Flatten(chunks[..|chunks| - 1]) + chunks[|chunks| - 1]
  }

  /** What the words still in the buffer, the chunks already shown and the octets still to
      be read amount to together. */
  ghost predicate Accounted(str: seq<bv8>, s8: nat, out: seq<seq<bv16>>, pending: seq<bv16>) {
    s8 <= |str| && Flatten(out) + pending + Transcode(str[s8..]) == Transcode(str)
  }

  lemma TranscodeStep(str: seq<bv8>, s8: nat)
    requires s8 < |str| && str[s8] != 0 && str[|str| - 1] == 0
    ensures var (c, k) := Step(str[s8..]);
            && c <= 0x10ffff && IsScalar(c) && c != 0 && (c == 10 <==> str[s8] == 10)
            && s8 + k < |str|
            && Transcode(str[s8..]) == Emit(c) + Transcode(str[s8 + k..])
  {
    hide Step, Emit, IsScalar, Utf16;
    var s := str[s8..];
    StepFacts(s);
    assert s[|s| - 1] == 0;
    assert s[Step(s).1..] == str[s8 + Step(s).1..];
  }

  lemma AccountStart(str: seq<bv8>)
    ensures Accounted(str, 0, [], []) && IsClean([]) && AreChunks([], str != [] && str[0] == 0)
  {
    hide Transcode;
    assert str[0..] == str;
    Regroup([], [], [], Transcode(str));
  }

  lemma AccountStep(str: seq<bv8>, s8: nat, out: seq<seq<bv16>>, pending: seq<bv16>)
    requires Accounted(str, s8, out, pending) && s8 < |str| && str[s8] != 0 && str[|str| - 1] == 0
    requires IsClean(pending)
    ensures var (c, k) := Step(str[s8..]);
            && c <= 0x10ffff && IsScalar(c) && c != 0 && (c == 10 <==> str[s8] == 10)
            && s8 + k < |str|
            && Accounted(str, s8 + k, out, pending + Emit(c))
            && IsClean(pending + Emit(c))
  {
    hide Step, Emit, IsScalar, Utf16, IsClean, Transcode, Flatten;
    TranscodeStep(str, s8);
    var (c, k) := Step(str[s8..]);
    EmitIsClean(c);
    CleanAppend(pending, Emit(c));
    Regroup(Flatten(out), pending, Emit(c), Transcode(str[s8 + k..]));
  }

  /** The buffer, ended by a NUL, is the string of the pending words. */
  lemma PendingIsString(buf: seq<bv16>, pos: nat)
    requires pos < |buf| && buf[pos] == 0 && IsClean(buf[..pos])
    ensures 0 in buf && UpTo(buf, 0) == buf[..pos] && IsClean([])
  {
    hide WellFormed16;
    assert 0 !in buf[..pos];
    UpToIs(buf, 0, pos);
    EmptyIsClean();
  }

  lemma EmptyIsClean()
    ensures IsClean([])
  {
  }

  /** A flush moves the pending words to the end of the chunks. */
  lemma AccountFlush(str: seq<bv8>, s8: nat, out: seq<seq<bv16>>, pending: seq<bv16>)
    requires Accounted(str, s8, out, pending)
    ensures Accounted(str, s8, out + [pending], [])
  {
    hide Transcode;
    assert (out + [pending])[..|out|] == out;
    assert Flatten(out + [pending]) == Flatten(out) + pending;
    Regroup(Flatten(out), pending, [], Transcode(str[s8..]));
  }

  /** The two words written for a code point above plane 0 are its surrogate pair. */
  lemma PairWords(c: bv32)
    requires !IsPlane0(c) && c <= 0x10ffff
    ensures Utf16(c) == [HighWord(c)] + [LowWord(c)]
  {
  }

  predicate IsPlane0(c: bv32) { c < 0x10000 }

  /** What is left of a value in a 16-bit word. */
  function Word(c: bv32): bv16 { (c & 0xffff) as bv16 }

  /** The two words of the source for a code point above plane 0. */
  function HighWord(c: bv32): bv16 { Word((0xd800 - (0x10000 >> 10)) + (c >> 10)) }

  function LowWord(c: bv32): bv16 { Word(0xdc00 + (c & 0x3ff)) }

  lemma PlainWord(c: bv32)
    requires IsPlane0(c)
    ensures Utf16(c) == [Word(c)]
  {
  }

  lemma EmitIs(c: bv32)
    requires c <= 0x10ffff
    ensures Emit(c) == (if c == 10 then [CR] else []) + Utf16(c)
  {
  }

  /** A chunk fits the buffer with its terminator and only the last one is short. */
  ghost predicate IsChunk(w: seq<bv16>, last: bool) {
    1 <= |w| <= 127 && IsClean(w) && (|w| < 126 ==> last)
  }

  ghost predicate AreChunks(out: seq<seq<bv16>>, finished: bool) {
    forall i :: 0 <= i < |out| ==> IsChunk(out[i], finished && i == |out| - 1)
  }

  /** What is shown chunk by chunk, in numbers: at most 127 words of a buffer of 128, at least 126 but
      for the last, no NUL, no half of a surrogate pair and no LF without a CR. */
  lemma ChunksMean(out: seq<seq<bv16>>, i: nat, k: nat)
    requires AreChunks(out, true) && i < |out| && k < |out[i]|
    ensures |out[i]| <= 127 && (i < |out| - 1 ==> |out[i]| >= 126)
    ensures var w := out[i];
            && w[k] != 0
            && (w[k] == 10 ==> k > 0 && w[k - 1] == 13)
            && (0xd800 <= w[k] <= 0xdbff ==> k + 1 < |w| && 0xdc00 <= w[k + 1] <= 0xdfff)
            && (0xdc00 <= w[k] <= 0xdfff ==> k > 0 && 0xd800 <= w[k - 1] <= 0xdbff)
  {
    assert IsChunk(out[i], i == |out| - 1);
  }

  lemma AddChunk(out: seq<seq<bv16>>, w: seq<bv16>, finished: bool)
    requires AreChunks(out, false) && IsClean(w) && 1 <= |w| <= 127 && (|w| < 126 ==> finished)
    ensures AreChunks(out + [w], finished)
  {
  }

  lemma AccountEnd(str: seq<bv8>, s8: nat, out: seq<seq<bv16>>)
    requires Accounted(str, s8, out, []) && s8 < |str| && str[s8] == 0
    ensures Flatten(out) == Transcode(str)
  {
    hide Step, Emit;
    Regroup(Flatten(out), [], [], []);
  }

  /** Puts a word at the end of the pending words. */
  method Put(buf: array<bv16>, pos: nat, w: bv16) returns (next: nat)
    requires pos < buf.Length
    modifies buf
    ensures next == pos + 1 && buf[..next] == old(buf[..pos]) + [w]
  {
    buf[pos] := w;
    next := pos + 1;
  }

  /** Puts the UTF-16 form of a code point there. */
  method PutCode(buf: array<bv16>, pos: nat, c32: bv32) returns (next: nat)
    requires c32 <= 0x10ffff && pos + 2 <= buf.Length
    modifies buf
    ensures next == pos + |Utf16(c32)| && buf[..next] == old(buf[..pos]) + Utf16(c32)
  {
    hide *;
    if IsPlane0(c32) {
      PlainWord(c32);
      next := Put(buf, pos, Word(c32));
    } else {
      PairWords(c32);
      next := Put(buf, pos, HighWord(c32));
      next := Put(buf, next, LowWord(c32));
    }
  }

  /** The text console of the firmware, which shows one NUL-terminated chunk per call. */
  class TextOutput {
    var shown: seq<seq<bv16>>

    method EfiChar16Puts(str: array<bv16>)
      requires 0 in str[..]
      modifies this
      ensures shown == old(shown) + [UpTo(str[..], 0)]
    {
      shown := shown + [UpTo(str[..], 0)];
    }

    /** Ends the words in the buffer with a NUL and shows them. */
    method Flush(buf: array<bv16>, pos: nat, ghost chunk: seq<bv16>)
      requires pos < buf.Length && buf[..pos] == chunk && IsClean(chunk)
      modifies this, buf
      ensures shown == old(shown) + [chunk]
    {
      hide *;
      buf[pos] := 0;
      assert buf[..][..pos] == chunk;
      PendingIsString(buf[..], pos);
      EfiChar16Puts(buf);
    }

    method EfiPuts(str: seq<bv8>) returns (ghost out: seq<seq<bv16>>)
      requires str != [] && str[|str| - 1] == 0
      modifies this
      ensures shown == old(shown) + out
      ensures Flatten(out) == Transcode(str)
      ensures AreChunks(out, true)
    {
      hide *;
      ghost var first := shown;
      var buf := new bv16[128];
      var pos: nat := 0;
      var lim := buf.Length;
      out := [];

      var s8 := 0;
      AccountStart(str);
      assert buf[..0] == [];
      while str[s8] != 0
        invariant s8 < |str| && pos < lim - 2
        invariant Accounted(str, s8, out, buf[..pos]) && IsClean(buf[..pos])
        invariant AreChunks(out, str[s8] == 0)
        invariant str[s8] == 0 ==> pos == 0
        invariant shown == first + out
        decreases |str| - s8
      {
        ghost var pending, w: seq<bv16> := buf[..pos], [];
        AccountStep(str, s8, out, pending);
        if str[s8] == 10 {
          pos := Put(buf, pos, CR);
          w := [CR];
        }
        var c32;
        c32, s8 := Utf8ToUtf32(str, s8);
        EmitIs(c32);
        pos := PutCode(buf, pos, c32);
        Associates(pending, w, Utf16(c32));
        ghost var chunk := pending + Emit(c32);
        if str[s8] == 0 || pos >= lim - 2 {
          AccountFlush(str, s8, out, chunk);
          AddChunk(out, chunk, str[s8] == 0);
          Flush(buf, pos, chunk);
          Associates(first, out, [chunk]);
          out := out + [chunk];
          pos := 0;
          assert buf[..0] == [];
        }
      }
      AccountEnd(str, s8, out);
    }
  }
}
