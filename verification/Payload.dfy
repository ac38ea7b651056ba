/** The watermark payload codec and its sync frame. */
module Payload {
  import opened Wrappers
  import opened Digits
  import opened BitInts
  import BitLists
  import opened Crc
  import opened Ecc

  // ----- the sync frame -----

  /** The bits of `OPRW`. */
  const PREAMBLE: Bits := [0,1,0,0,1,1,1,1, 0,1,0,1,0,0,0,0, 0,1,0,1,0,0,1,0, 0,1,0,1,0,1,1,1]

  /**
    The preamble overlaps no shifted copy of itself: its first six bits start at no later
    position, as far as they fit.
    */
  lemma PreambleUnbordered(d: nat) returns (i: nat)
    requires 1 <= d <= 31
    ensures i + d < 32 && PREAMBLE[i] != PREAMBLE[i + d]
  {
    if PREAMBLE[d] != 0 { i := 0; }
    else if d < 31 && PREAMBLE[d + 1] != 1 { i := 1; }
    else if d < 30 && PREAMBLE[d + 2] != 0 { i := 2; }
    else if d < 29 && PREAMBLE[d + 3] != 0 { i := 3; }
    else if d < 28 && PREAMBLE[d + 4] != 1 { i := 4; }
    else { i := 5; }
  }

  /** It is the ASCII text `OPRW`, most significant bits first. */
  lemma PreambleIsText()
    ensures |PREAMBLE| == 32 && BitsToInt(PREAMBLE) == 0x4F50_5257
  {
    PreambleNibble(0); PreambleNibble(4); PreambleNibble(8); PreambleNibble(12);
    PreambleNibble(16); PreambleNibble(20); PreambleNibble(24); PreambleNibble(28);
    AllNibbles(PREAMBLE);
  }

  /** The value of 32 bits, four bits at a time. */
  lemma AllNibbles(bits: Bits)
    requires |bits| == 32
    requires Nibble(bits, 0, 4) && Nibble(bits, 4, 15) && Nibble(bits, 8, 5) && Nibble(bits, 12, 0)
    requires Nibble(bits, 16, 5) && Nibble(bits, 20, 2) && Nibble(bits, 24, 5) && Nibble(bits, 28, 7)
    ensures BitsToInt(bits) == 0x4F50_5257
  {
    assert bits[..0] == [] && bits[..32] == bits;
    FromNoDigits(2);
    hide FromDigits;
  }

  /** The four bits at `at` add the digit `d`. */
  predicate Nibble(bits: seq<nat>, at: nat, d: nat)
    requires at + 4 <= |bits|
  {
    FromDigits(2, bits[..at + 4]) == 16 * FromDigits(2, bits[..at]) + d
  }

  lemma PreambleNibble(at: nat)
    requires at in {0, 4, 8, 12, 16, 20, 24, 28}
    ensures |PREAMBLE| == 32 && Nibble(PREAMBLE, at, match at
      case 0 => 4 case 4 => 15 case 8 => 5 case 12 => 0 case 16 => 5 case 20 => 2 case 24 => 5 case _ => 7)
  {
    hide Nibble;
    NibbleOf(PREAMBLE, at);
  }

  lemma NibbleOf(bits: seq<nat>, at: nat)
    requires at + 4 <= |bits|
    ensures Nibble(bits, at, 8 * bits[at] + 4 * bits[at + 1] + 2 * bits[at + 2] + bits[at + 3])
  {
    hide FromDigits;
    FromDigitsByFour(2, bits, at);
  }

  predicate PreambleAt(bits: Bits, offset: nat) {
    offset + 32 <= |bits| && bits[offset..offset + 32] == PREAMBLE
  }

  function FrameBits(payload: Bits): (f: Bits) {
    PREAMBLE + IntToBits(|payload|, 16) + payload
  }

  /** The first offset up to `limit` that holds the preamble. */
  function Scan(bits: Bits, offset: nat, limit: nat): (r: Option<nat>)
    requires offset <= limit + 1
    decreases limit + 1 - offset
  {
    if offset > limit then None
    else if PreambleAt(bits, offset) then Some(offset)
    else Scan(bits, offset + 1, limit)
  }

  function SearchLimit(len: nat, maxScan: int): (l: nat) {
    var a: nat := if maxScan > 0 then maxScan else 0;
    var b: nat := if len > 32 then len - 32 else 0;
    if a < b then a else b
  }

  /** The payload bits and preamble offset in decoded bits. */
  function Unframe(bits: Bits, maxScan: int): (r: Result<(Bits, nat)>) {
    match Scan(bits, 0, SearchLimit(|bits|, maxScan))
    case None => Err
    case Some(offset) =>
      var start := offset + 48;
      if |bits| < start then Err
      else
        var end := start + BitsToInt(bits[offset + 32..start]);
        if |bits| < end then Err else Ok((bits[start..end], offset))
  }

  /** The length announced by a frame at `k`. */
  function AnnouncedLength(bits: Bits, k: nat): (n: nat)
    requires k + 48 <= |bits|
  {
    BitsToInt(bits[k + 32..k + 48])
  }

  /** The preamble stands at `k` and nowhere before, and all that the frame announces is there. */
  predicate FrameAt(bits: Bits, k: nat) {
    && PreambleAt(bits, k) && (forall q :: 0 <= q < k ==> !PreambleAt(bits, q))
    && k + 48 <= |bits| && k + 48 + AnnouncedLength(bits, k) <= |bits|
  }

  /** A frame begins within the scan window: no later than `maxScan`, or at 0 if that is negative. */
  predicate InWindow(k: nat, maxScan: int) {
    k == 0 || k <= maxScan
  }

  lemma PreambleFits(bits: Bits)
    ensures forall q: nat :: PreambleAt(bits, q) ==> q + 32 <= |bits|
  {
  }

  /** Unframing finds a frame exactly when one begins within the window. */
  lemma UnframeIff(bits: Bits, maxScan: int)
    ensures Unframe(bits, maxScan).Ok? <==> exists k :: InWindow(k, maxScan) && FrameAt(bits, k)
    ensures Unframe(bits, maxScan).Ok? ==> var k := Unframe(bits, maxScan).value.1;
      && InWindow(k, maxScan) && FrameAt(bits, k) && Unframe(bits, maxScan).value.0 == bits[k + 48..k + 48 + AnnouncedLength(bits, k)]
  {
    hide BitsToInt, PreambleAt;
    var limit := SearchLimit(|bits|, maxScan);
    ScanResult(bits, 0, limit);
    PreambleFits(bits);
    hide Scan;
    forall k: nat | InWindow(k, maxScan) && FrameAt(bits, k)
      ensures Unframe(bits, maxScan) == Ok((bits[k + 48..k + 48 + AnnouncedLength(bits, k)], k)) {}
    if Unframe(bits, maxScan).Ok? {
      assert InWindow(Unframe(bits, maxScan).value.1, maxScan) && FrameAt(bits, Unframe(bits, maxScan).value.1);
    }
  }

  datatype FrameReport = FrameReport(payloadBits: Bits, decodedBitsSeen: nat, preambleOffset: nat, repetition: DecodeReport)

  /** A repetition code and the size of the preamble scan window. */
  datatype FrameCodec = FrameCodec(ecc: RepetitionCode, maxScan: int) {

    method EncodePayloadBits(payload: Bits) returns (carrier: Result<Bits>)
      ensures carrier.Ok? <==> |payload| < 0x1_0000
      ensures carrier.Ok? ==> carrier.value == Repeat(FrameBits(payload), ecc.repetitions)
    {
      if |payload| >= 0x1_0000 {
        return Err;
      }
      var raw := PREAMBLE + IntToBits(|payload|, 16) + payload;
      var out := ecc.Encode(raw);
      carrier := Ok(out);
    }

    /**
      Majority-decode, scan for the preamble, and cut out the payload.  It succeeds exactly when
      the first preamble of the decoded bits begins within the window and is followed by a length
      field and as many bits as that announces; these bits are the payload.
      */
    method DecodePayloadBits(carrier: Bits) returns (r: Result<FrameReport>)
      requires ecc.Valid()
      ensures r.Ok? <==> exists k :: InWindow(k, maxScan) && FrameAt(ecc.Decoded(carrier), k)
      ensures r.Ok? ==> var bits, k := ecc.Decoded(carrier), r.value.preambleOffset;
        && InWindow(k, maxScan) && FrameAt(bits, k)
        && r.value.payloadBits == bits[k + 48..k + 48 + AnnouncedLength(bits, k)]
      ensures r.Ok? ==> ecc.Reports(carrier, r.value.repetition) && r.value.repetition.decoded == ecc.Decoded(carrier)
      ensures r.Ok? <==> Unframe(ecc.Decoded(carrier), maxScan).Ok?
      ensures r.Ok? ==> (r.value.payloadBits, r.value.preambleOffset) == Unframe(ecc.Decoded(carrier), maxScan).value
      ensures r.Ok? ==> r.value.decodedBitsSeen == Groups(|carrier|, ecc.repetitions)
    {
      hide PreambleAt, FromDigits, Ecc.Groups, InWindow, FrameAt, RepetitionCode.Reports, RepetitionCode.Decoded;
      var report := ecc.Decode(carrier);
      var bits := report.decoded;
      UnframeIff(bits, maxScan);
      var limit := SearchLimit(|bits|, maxScan);
      var offset := 0;
      while offset <= limit && !PreambleAt(bits, offset)
        invariant offset <= limit + 1 && Scan(bits, offset, limit) == Scan(bits, 0, limit)
      {
        offset := offset + 1;
      }
      if offset > limit {
        return Err;
      }
      var pos := offset + 32;
      if |bits| < pos + 16 {
        return Err;
      }
      var start := pos + 16;
      var end := start + BitsToInt(bits[pos..start]);
      if |bits| < end {
        return Err;
      }
      r := Ok(FrameReport(bits[start..end], |bits|, offset, report));
    }
  }

  lemma {:induction false} ScanResult(bits: Bits, offset: nat, limit: nat)
    requires offset <= limit + 1
    ensures var r := Scan(bits, offset, limit);
      (r.None? ==> forall q :: offset <= q <= limit ==> !PreambleAt(bits, q))
      && (r.Some? ==> offset <= r.value <= limit && PreambleAt(bits, r.value)
                      && forall q :: offset <= q < r.value ==> !PreambleAt(bits, q))
    decreases limit + 1 - offset
  {
    if offset <= limit && !PreambleAt(bits, offset) { ScanResult(bits, offset + 1, limit); }
  }

  /** Before a preamble at `k`, another can only stand if it ends at `k` or earlier. */
  lemma NoOverlap(bits: Bits, q: nat, k: nat)
    requires PreambleAt(bits, k) && q < k < q + 32
    ensures !PreambleAt(bits, q)
  {
    var i := PreambleUnbordered(k - q);
    PreambleBit(bits, k, i);
    PreambleBit(bits, q, i + (k - q));
  }

  lemma PreambleBit(bits: Bits, q: nat, j: nat)
    requires j < 32 && q + j < |bits|
    ensures PreambleAt(bits, q) ==> bits[q + j] == PREAMBLE[j]
  {
    if PreambleAt(bits, q) { assert bits[q..q + 32][j] == PREAMBLE[j]; }
  }

  /** The first `k` bits contain no complete preamble. */
  predicate NoPreambleBefore(bits: Bits, k: nat) {
    forall q :: 0 <= q && q + 32 <= k ==> !PreambleAt(bits, q)
  }

  lemma SubSlice<T>(s: seq<T>, k: nat, f: seq<T>, lo: nat, hi: nat)
    requires k + |f| <= |s| && s[k..k + |f|] == f && lo <= hi <= |f|
    ensures s[k + lo..k + hi] == f[lo..hi]
  {
    var g := s[k..k + |f|];
    forall i | 0 <= i < hi - lo ensures g[lo..hi][i] == s[k + lo..k + hi][i] {
      assert g[lo + i] == s[k + (lo + i)];
    }
  }

  lemma FrameSlices(payload: Bits)
    ensures var f := FrameBits(payload);
      |f| == 48 + |payload| && f[0..32] == PREAMBLE && f[32..48] == IntToBits(|payload|, 16) && f[48..|f|] == payload
  {
    hide IntToBits;
  }

  lemma FrameParts(bits: Bits, k: nat, payload: Bits)
    requires |payload| < 0x1_0000 && k + |FrameBits(payload)| <= |bits|
    requires bits[k..k + |FrameBits(payload)|] == FrameBits(payload)
    ensures k + 48 + |payload| <= |bits| && PreambleAt(bits, k)
    ensures BitsToInt(bits[k + 32..k + 48]) == |payload|
    ensures bits[k + 48..k + 48 + |payload|] == payload
  {
    var f, n := FrameBits(payload), |payload|;
    FrameSlices(payload);
    SubSlice(bits, k, f, 0, 32);
    SubSlice(bits, k, f, 32, 48);
    SubSlice(bits, k, f, 48, 48 + n);
    BitLists.PowerOfTwo(16);
    Widths();
    DigitsRoundTrip(2, |payload|, 16);
  }

  /**
    A frame at offset `k` within the scan window is found, and found there, exactly when no
    complete preamble stands before it.
    */
  lemma UnframeAt(bits: Bits, k: nat, payload: Bits, maxScan: int)
    requires |payload| < 0x1_0000 && k <= maxScan && k + |FrameBits(payload)| <= |bits|
    requires bits[k..k + |FrameBits(payload)|] == FrameBits(payload)
    ensures Unframe(bits, maxScan) == Ok((payload, k)) <==> NoPreambleBefore(bits, k)
    ensures k <= 31 ==> NoPreambleBefore(bits, k)
  {
    FrameParts(bits, k, payload);
    var limit := SearchLimit(|bits|, maxScan);
    ScanResult(bits, 0, limit);
    forall q | 0 <= q < k && k < q + 32 ensures !PreambleAt(bits, q) { NoOverlap(bits, q, k); }
  }

  /**
    Exact resynchronisation: leading junk of `a` groups and `m` bits with any content, then the
    repeated frame, then any trailing bits.
    */
  lemma Resynchronises(codec: FrameCodec, junk: Bits, payload: Bits, trail: Bits, a: nat, m: nat)
    requires codec.ecc.Valid() && |payload| < 0x1_0000
    requires m < codec.ecc.repetitions && |junk| == Times(a, codec.ecc.repetitions) + m
    requires 2 * m > codec.ecc.repetitions ==> |trail| >= codec.ecc.repetitions - m
    requires (if 2 * m < codec.ecc.repetitions then a else a + 1) <= codec.maxScan
    ensures var k := if 2 * m < codec.ecc.repetitions then a else a + 1;
      var bits := codec.ecc.Decoded(junk + Repeat(FrameBits(payload), codec.ecc.repetitions) + trail);
      (Unframe(bits, codec.maxScan) == Ok((payload, k)) <==> NoPreambleBefore(bits, k))
      && (k <= 31 ==> Unframe(bits, codec.maxScan) == Ok((payload, k)))
  {
    hide FrameBits, Repeat, Times;
    var k := if 2 * m < codec.ecc.repetitions then a else a + 1;
    var carrier := junk + Repeat(FrameBits(payload), codec.ecc.repetitions) + trail;
    ShiftedCarries(codec.ecc, junk, FrameBits(payload), trail, a, m);
    FrameNonEmpty(payload);
    CarriedBitsDecode(codec.ecc, carrier, k, FrameBits(payload));
    UnframeAt(codec.ecc.Decoded(carrier), k, payload, codec.maxScan);
  }

  lemma FrameNonEmpty(payload: Bits)
    ensures |FrameBits(payload)| == 48 + |payload|
  {
  }

  /** The frame survives flips that hit fewer than half of each group, whatever follows it. */
  lemma FrameSurvivesNoise(codec: FrameCodec, payload: Bits, carrier: Bits)
    requires codec.ecc.Valid() && |payload| < 0x1_0000 && codec.maxScan >= 0
    requires Times(|FrameBits(payload)|, codec.ecc.repetitions) <= |carrier|
    requires forall j :: (0 <= j < |FrameBits(payload)| && j < Groups(|carrier|, codec.ecc.repetitions)
                          ==> FewFlips(codec.ecc, carrier, j, FrameBits(payload)[j]))
    ensures Unframe(codec.ecc.Decoded(carrier), codec.maxScan) == Ok((payload, 0))
  {
    hide FrameBits, Times;
    NoisyCarries(codec.ecc, FrameBits(payload), carrier);
    FrameNonEmpty(payload);
    CarriedBitsDecode(codec.ecc, carrier, 0, FrameBits(payload));
    UnframeAt(codec.ecc.Decoded(carrier), 0, payload, codec.maxScan);
  }

  // ----- the payload -----

  datatype Mode = Full160 | Short64 | Short64Hv | Full160Rateless {

    /** The code of a mode in the flags byte. */
    function Flag(): (f: nat)
      ensures f < 4
    {
      match this case Full160 => 0 case Short64 => 1 case Short64Hv => 2 case Full160Rateless => 3
    }

    function PointerBytes(): (n: nat) {
      if Full160? || Full160Rateless? then 20 else 8
    }
  }

  function ModeOfFlag(f: nat): (m: Mode)
    requires f < 4
    ensures m.Flag() == f
  {
    if f == 0 then Full160 else if f == 1 then Short64 else if f == 2 then Short64Hv else Full160Rateless
  }

  datatype WatermarkPayload = WatermarkPayload(
    version: nat, wmAlgId: nat, mode: Mode, pointer: Bytes, extraFlags: nat, crc16: Option<nat>)
  {
    /** The checks made when a payload is built. */
    predicate Valid() {
      && version <= 0xF && wmAlgId <= 0xFFF
      && extraFlags <= 0xFC && And(extraFlags, 3) == 0
      && |pointer| == mode.PointerBytes()
      && (crc16.Some? ==> crc16.value <= 0xFFFF)
    }

    function Flags(): (f: nat) {
      Or(extraFlags, mode.Flag())
    }

    function BitLength(): (n: nat) {
      24 + 8 * mode.PointerBytes() + 16
    }

    function BitsWithoutCrc(): (bits: Bits)
      ensures |bits| == 24 + 8 * |pointer|
    {
      IntToBits(version, 4) + IntToBits(wmAlgId, 12) + IntToBits(Flags(), 8) + BytesToBits(pointer)
    }

    function ComputeCrc16(): (crc: nat)
      ensures crc <= 0xFFFF
    {
      Crc16(BitsToBytes(BitsWithoutCrc()))
    }

    function ToBits(): (bits: Bits) {
      BitsWithoutCrc() + IntToBits(if crc16.Some? then crc16.value else ComputeCrc16(), 16)
    }

    function WithComputedCrc(): (p: WatermarkPayload) {
      this.(crc16 := Some(ComputeCrc16()))
    }
  }

  function DecodeBits(bits: Bits, requireCrc: bool): (r: Result<WatermarkPayload>) {
    if |bits| < 24 then Err
    else
      var flags := BitsToInt(bits[16..24]);
      LowBits(flags, 0);
      var mode := ModeOfFlag(And(flags, 3));
      var end := 24 + 8 * mode.PointerBytes();
      if |bits| < end + 16 then Err
      else
        var crc := BitsToInt(bits[end..end + 16]);
        var payload := WatermarkPayload(BitsToInt(bits[0..4]), BitsToInt(bits[4..16]), mode,
                                        BitsToBytes(bits[24..end]), 4 * (flags / 4), Some(crc));
        if requireCrc && payload.ComputeCrc16() != crc then Err else Ok(payload)
  }

  /** The two mode bits and the rest of a flags byte. */
  lemma LowBits(q: nat, f: nat)
    requires f < 4
    ensures And(q, 3) == q % 4
    ensures Or(4 * q, f) == 4 * q + f
  {
    AndThree(q);
    hide And, Or;
    OrHalf(4 * q, f);
    OrHalf(2 * q, f / 2);
    assert f / 2 / 2 == 0 && 2 * q / 2 == q;
    OrZero(q);
  }

  lemma AndThree(q: nat)
    ensures And(q, 3) == q % 4
  {
    hide And;
    AndOne(q);
    AndOne(q / 2);
    LastTwoBits(q);
  }

  lemma LastTwoBits(q: nat)
    ensures q % 4 == 2 * (q / 2 % 2) + q % 2
  {
    var h, r := q / 4, q % 4;
    assert q == 4 * h + r;
    assert q / 2 == 2 * h + r / 2 && q % 2 == r % 2;
    assert (2 * h + r / 2) % 2 == r / 2;
  }

  lemma AndOne(q: nat)
    ensures And(q, 1) == q % 2
    ensures And(q, 3) == 2 * And(q / 2, 1) + q % 2
  {
    AndNone(q / 2);
    AndNone(q / 2 / 2);
  }

  lemma {:induction false} AndNone(q: nat)
    ensures And(q, 0) == 0 && And(q / 2, 3 / 2) == And(q / 2, 1)
  {
    if q > 0 { AndNone(q / 2); }
  }

  lemma FieldBits(bits: Bits, width: nat)
    requires |bits| == width
    ensures BitsToInt(bits) < Pow2(width) && IntToBits(BitsToInt(bits), width) == bits
  {
    ValueRoundTrip(2, bits);
    BitLists.PowerOfTwo(width);
  }

  lemma FieldValue(n: nat, width: nat)
    requires n < Pow2(width)
    ensures BitsToInt(IntToBits(n, width)) == n
  {
    BitLists.PowerOfTwo(width);
    DigitsRoundTrip(2, n, width);
  }

  lemma FieldWidths()
    ensures Pow2(1) == 2 && Pow2(3) == 8 && Pow2(4) == 0x10 && Pow2(8) == 0x100 && Pow2(12) == 0x1000 && Pow2(16) == 0x1_0000
  {
    Widths();
    assert Pow2(4) == 0x10;
    Pow2Add(4, 4);
    Pow2Add(4, 8);
  }

  lemma FlagsSplit(p: WatermarkPayload)
    requires p.Valid()
    ensures p.Flags() == p.extraFlags + p.mode.Flag() < 0x100
    ensures And(p.Flags(), 3) == p.mode.Flag() && 4 * (p.Flags() / 4) == p.extraFlags
  {
    hide And, Or;
    LowBits(p.extraFlags, 0);
    var q := p.extraFlags / 4;
    assert p.extraFlags == 4 * q && q <= 63;
    LowBits(q, p.mode.Flag());
    LowBits(p.Flags(), 0);
  }

  /** The fields of an encoded payload stand where the decoder looks for them. */
  lemma EncodedFields(p: WatermarkPayload, tail: Bits)
    requires p.Valid()
    ensures var bits := p.ToBits() + tail; var end := 24 + 8 * p.mode.PointerBytes();
      |bits| >= end + 16 && bits[0..4] == IntToBits(p.version, 4) && bits[4..16] == IntToBits(p.wmAlgId, 12)
      && bits[16..24] == IntToBits(p.Flags(), 8) && bits[24..end] == BytesToBits(p.pointer)
      && bits[end..end + 16] == IntToBits(if p.crc16.Some? then p.crc16.value else p.ComputeCrc16(), 16)
  {
    hide IntToBits, BytesToBits, Or, Crc16, And;
    Slices(IntToBits(p.version, 4), IntToBits(p.wmAlgId, 12), IntToBits(p.Flags(), 8), BytesToBits(p.pointer),
           IntToBits(if p.crc16.Some? then p.crc16.value else p.ComputeCrc16(), 16), tail);
  }

  /**
    Where an encoded payload holds what: version, algorithm id, flags with the mode's code in the
    last two bits, the pointer's bytes, and a checksum over everything before it.
    */
  lemma PayloadLayout(p: WatermarkPayload)
    requires p.Valid()
    ensures var bits, end := p.ToBits(), 24 + 8 * |p.pointer|;
      && |p.pointer| == (if p.mode in {Full160, Full160Rateless} then 20 else 8) && |bits| == end + 16
      && BitsToInt(bits[0..4]) == p.version && BitsToInt(bits[4..16]) == p.wmAlgId
      && BitsToInt(bits[16..24]) == p.extraFlags
           + (match p.mode case Full160 => 0 case Short64 => 1 case Short64Hv => 2 case Full160Rateless => 3)
      && BitsToBytes(bits[24..end]) == p.pointer
      && BitsToInt(bits[end..end + 16]) == (if p.crc16.Some? then p.crc16.value else Crc16(BitsToBytes(bits[..end])))
  {
    EncodedFields(p, []);
    assert p.ToBits() + [] == p.ToBits();
    FlagsSplit(p);
    FieldWidths();
    FieldValue(p.version, 4);
    FieldValue(p.wmAlgId, 12);
    FieldValue(p.Flags(), 8);
    FieldValue(if p.crc16.Some? then p.crc16.value else p.ComputeCrc16(), 16);
    BytesBitsRoundTrip(p.pointer);
    assert p.ToBits()[..24 + 8 * |p.pointer|] == p.BitsWithoutCrc();
  }

  lemma Slices<T>(a: seq<T>, b: seq<T>, c: seq<T>, d: seq<T>, e: seq<T>, tail: seq<T>)
    ensures var s := a + b + c + d + e + tail;
      s[0..|a|] == a && s[|a|..|a| + |b|] == b && s[|a| + |b|..|a| + |b| + |c|] == c
      && s[|a| + |b| + |c|..|a| + |b| + |c| + |d|] == d
      && s[|a| + |b| + |c| + |d|..|a| + |b| + |c| + |d| + |e|] == e
  {
  }

  /**
    Round trip: an encoded payload, followed by anything, decodes to itself with its checksum
    filled in, and with a wrong explicit checksum it is refused.
    */
  lemma PayloadRoundTrip(p: WatermarkPayload, tail: Bits)
    requires p.Valid()
    ensures p.crc16 in {None, Some(p.ComputeCrc16())} ==> DecodeBits(p.ToBits() + tail, true) == Ok(p.WithComputedCrc())
    ensures p.crc16 !in {None, Some(p.ComputeCrc16())} ==>
      DecodeBits(p.ToBits() + tail, true) == Err && DecodeBits(p.ToBits() + tail, false) == Ok(p)
  {
    EncodedFields(p, tail);
    FlagsSplit(p);
    FieldWidths();
    FieldValue(p.version, 4);
    FieldValue(p.wmAlgId, 12);
    FieldValue(p.Flags(), 8);
    FieldValue(if p.crc16.Some? then p.crc16.value else p.ComputeCrc16(), 16);
    BytesBitsRoundTrip(p.pointer);
    ModeFromFlag(p.mode);
    CrcOfFields(p);
  }

  lemma ModeFromFlag(m: Mode)
    ensures ModeOfFlag(m.Flag()) == m
  {
  }

  /** The checksum does not depend on the checksum field. */
  lemma CrcOfFields(p: WatermarkPayload)
    ensures forall c {:trigger p.(crc16 := c)} :: p.(crc16 := c).ComputeCrc16() == p.ComputeCrc16()
  {
    forall c ensures p.(crc16 := c).ComputeCrc16() == p.ComputeCrc16() {
      assert p.(crc16 := c).BitsWithoutCrc() == p.BitsWithoutCrc();
    }
  }

  /** Exactness: whatever decodes is a well-formed payload, and the bits read are its encoding. */
  lemma PayloadExact(bits: Bits, requireCrc: bool)
    requires DecodeBits(bits, requireCrc).Ok?
    ensures var p := DecodeBits(bits, requireCrc).value;
      p.Valid() && p.crc16.Some? && (requireCrc ==> p.crc16 == Some(p.ComputeCrc16()))
      && p.BitLength() <= |bits| && p.ToBits() == bits[..p.BitLength()]
  {
    hide DecodeBits, BitsToInt, IntToBits, BitsToBytes, BytesToBits, And, Or, Crc16, ModeOfFlag, WatermarkPayload.Flags,
      WatermarkPayload.ToBits, WatermarkPayload.BitsWithoutCrc, WatermarkPayload.ComputeCrc16;
    DecodedShape(bits, requireCrc);
    var p := DecodeBits(bits, requireCrc).value;
    var end := 24 + 8 * p.mode.PointerBytes();
    FieldsRead(p, bits, end);
    Assembled(p, bits, end);
  }

  /** Fields read off bits are in range, and their bits are the bits read. */
  lemma FieldsRead(p: WatermarkPayload, bits: Bits, end: nat)
    requires end == 24 + 8 * p.mode.PointerBytes() && end + 16 <= |bits| && And(BitsToInt(bits[16..24]), 3) < 4
    requires p.version == BitsToInt(bits[0..4]) && p.wmAlgId == BitsToInt(bits[4..16])
    requires p.mode == ModeOfFlag(And(BitsToInt(bits[16..24]), 3)) && p.extraFlags == 4 * (BitsToInt(bits[16..24]) / 4)
    requires p.pointer == BitsToBytes(bits[24..end]) && p.crc16 == Some(BitsToInt(bits[end..end + 16]))
    ensures p.Valid() && IntToBits(p.version, 4) == bits[0..4] && IntToBits(p.wmAlgId, 12) == bits[4..16]
    ensures IntToBits(p.Flags(), 8) == bits[16..24] && BytesToBits(p.pointer) == bits[24..end]
    ensures IntToBits(p.crc16.value, 16) == bits[end..end + 16]
  {
    hide BitsToInt, IntToBits, BitsToBytes, BytesToBits, And, Or, ModeOfFlag, WatermarkPayload.Flags;
    FieldOf(bits, 0, 4);
    FieldOf(bits, 4, 16);
    FlagsField(bits[16..24], p);
    FieldOf(bits, end, end + 16);
    BitsBytesRoundTrip(bits[24..end]);
  }

  lemma Assembled(p: WatermarkPayload, bits: Bits, end: nat)
    requires 24 <= end && end + 16 <= |bits| && p.crc16.Some? && |p.pointer| == p.mode.PointerBytes() && end == 24 + 8 * |p.pointer|
    requires IntToBits(p.version, 4) == bits[0..4] && IntToBits(p.wmAlgId, 12) == bits[4..16]
    requires IntToBits(p.Flags(), 8) == bits[16..24] && BytesToBits(p.pointer) == bits[24..end]
    requires IntToBits(p.crc16.value, 16) == bits[end..end + 16]
    ensures p.BitLength() == end + 16 && p.ToBits() == bits[..p.BitLength()]
  {
    hide IntToBits, BytesToBits, WatermarkPayload.Flags;
    Pieces(bits, 4, 16, 24, end, end + 16);
  }

  lemma FieldOf(bits: Bits, lo: nat, hi: nat)
    requires lo <= hi <= |bits| && hi - lo in {4, 12, 16}
    ensures IntToBits(BitsToInt(bits[lo..hi]), hi - lo) == bits[lo..hi]
    ensures BitsToInt(bits[lo..hi]) <= (if hi - lo == 4 then 0xF else if hi - lo == 12 then 0xFFF else 0xFFFF)
  {
    hide IntToBits, BitsToInt;
    FieldWidths();
    FieldBits(bits[lo..hi], hi - lo);
  }

  lemma FlagsField(field: Bits, p: WatermarkPayload)
    requires |field| == 8 && And(BitsToInt(field), 3) < 4 && p.mode == ModeOfFlag(And(BitsToInt(field), 3)) && p.extraFlags == 4 * (BitsToInt(field) / 4)
    ensures IntToBits(p.Flags(), 8) == field && p.extraFlags <= 0xFC && And(p.extraFlags, 3) == 0
  {
    hide IntToBits, BitsToInt, And, Or;
    FieldWidths();
    FieldBits(field, 8);
    LowBits(BitsToInt(field), 0);
    FlagsJoin(BitsToInt(field), p.mode);
  }

  /** The fields a payload is decoded from. */
  lemma DecodedShape(bits: Bits, requireCrc: bool)
    requires DecodeBits(bits, requireCrc).Ok?
    ensures var p := DecodeBits(bits, requireCrc).value;
      var end := 24 + 8 * p.mode.PointerBytes();
      && end + 16 <= |bits| && p.version == BitsToInt(bits[0..4]) && p.wmAlgId == BitsToInt(bits[4..16])
      && p.mode == ModeOfFlag(And(BitsToInt(bits[16..24]), 3)) && p.extraFlags == 4 * (BitsToInt(bits[16..24]) / 4)
      && p.pointer == BitsToBytes(bits[24..end]) && p.crc16 == Some(BitsToInt(bits[end..end + 16]))
      && (requireCrc ==> p.crc16 == Some(p.ComputeCrc16()))
  {
    hide BitsToInt, IntToBits, BitsToBytes, BytesToBits, And, Or, Crc16;
    LowBits(BitsToInt(bits[16..24]), 0);
  }

  lemma Pieces<T>(s: seq<T>, a: nat, b: nat, c: nat, d: nat, e: nat)
    requires a <= b <= c <= d <= e <= |s|
    ensures s[..e] == s[0..a] + s[a..b] + s[b..c] + s[c..d] + s[d..e]
  {
  }

  lemma FlagsJoin(flags: nat, mode: Mode)
    requires flags < 0x100 && mode == ModeOfFlag(flags % 4)
    ensures And(flags, 3) == flags % 4 && And(4 * (flags / 4), 3) == 0
    ensures Or(4 * (flags / 4), mode.Flag()) == flags
  {
    hide And, Or;
    LowBits(flags, 0);
    LowBits(flags / 4, mode.Flag());
    LowBits(4 * (flags / 4), 0);
  }

  /**
    The codec is a bijection between well-formed payloads with a correct checksum, in all four
    pointer modes, and the bit strings of exact length that the decoder accepts.
    */
  lemma PayloadBijection(bits: Bits, p: WatermarkPayload)
    ensures (DecodeBits(bits, true) == Ok(p) && |bits| == p.BitLength())
      <==> (p.Valid() && p.crc16 == Some(p.ComputeCrc16()) && p.ToBits() == bits)
  {
    hide DecodeBits;
    if DecodeBits(bits, true) == Ok(p) {
      PayloadExact(bits, true);
      assert |bits| == p.BitLength() ==> bits[..p.BitLength()] == bits;
    }
    if p.Valid() && p.crc16 == Some(p.ComputeCrc16()) {
      PayloadRoundTrip(p, []);
      assert p.ToBits() + [] == p.ToBits();
    }
  }
}
