/** The 56-bit tile record of the rateless watermark, and its repeated form. */
module Records {
  import opened Wrappers
  import opened Digits
  import opened Crc
  import opened Ecc
  import P = Payload

  /** The bits of `OR`. */
  const TILE_PREAMBLE: Bits := [0,1,0,0,1,1,1,1, 0,1,0,1,0,0,1,0]

  const RECORD_BITS: nat := 56

  datatype TileRecord = TileRecord(equationId: nat, rhs: nat, version: nat, reserved: nat) {

    predicate Valid() {
      version <= 0xF && equationId < 0x1_0000 && rhs <= 1 && reserved < 8
    }

    function ProtectedBits(): (bits: Bits)
      ensures |bits| == 24
    {
      IntToBits(version, 4) + IntToBits(equationId, 16) + IntToBits(rhs, 1) + IntToBits(reserved, 3)
    }

    function Crc(): (crc: nat)
      ensures crc < 0x1_0000
    {
      Crc16(BitsToBytes(ProtectedBits()))
    }

    function ToBits(): (bits: Bits)
      ensures |bits| == RECORD_BITS
    {
      TILE_PREAMBLE + ProtectedBits() + IntToBits(Crc(), 16)
    }
  }

  function FieldsOf(b: Bits): (r: TileRecord)
    requires |b| >= RECORD_BITS
  {
    TileRecord(BitsToInt(b[20..36]), BitsToInt(b[36..37]), BitsToInt(b[16..20]), BitsToInt(b[37..40]))
  }

  function DecodeBits(b: Bits, requireCrc: bool): (r: Result<TileRecord>) {
    if |b| < RECORD_BITS || b[..16] != TILE_PREAMBLE then Err
    else
      var record := FieldsOf(b);
      if requireCrc && record.Crc() != BitsToInt(b[40..56]) then Err else Ok(record)
  }

  /** The fields read off any 56 bits are in range, and their protected bits are the bits read. */
  lemma FieldsExact(b: Bits)
    requires |b| >= RECORD_BITS
    ensures FieldsOf(b).Valid() && FieldsOf(b).ProtectedBits() == b[16..40]
    ensures BitsToInt(b[40..56]) < 0x1_0000 && IntToBits(BitsToInt(b[40..56]), 16) == b[40..56]
  {
    hide BitsToInt, IntToBits;
    P.FieldWidths();
    P.FieldBits(b[16..20], 4);
    P.FieldBits(b[20..36], 16);
    P.FieldBits(b[36..37], 1);
    P.FieldBits(b[37..40], 3);
    P.FieldBits(b[40..56], 16);
    FourPieces(b);
  }

  lemma FourPieces(b: Bits)
    requires |b| >= RECORD_BITS
    ensures b[16..20] + b[20..36] + b[36..37] + b[37..40] == b[16..40]
  {
  }

  /** The protected bits, cut up again. */
  lemma ProtectedPieces(r: TileRecord)
    ensures var p := r.ProtectedBits();
      && p[0..4] == IntToBits(r.version, 4) && p[4..20] == IntToBits(r.equationId, 16)
      && p[20..21] == IntToBits(r.rhs, 1) && p[21..24] == IntToBits(r.reserved, 3)
  {
    hide IntToBits;
    var p := r.ProtectedBits();
    P.Slices(IntToBits(r.version, 4), IntToBits(r.equationId, 16), IntToBits(r.rhs, 1), IntToBits(r.reserved, 3), [], []);
    assert p == IntToBits(r.version, 4) + IntToBits(r.equationId, 16) + IntToBits(r.rhs, 1) + IntToBits(r.reserved, 3) + [] + [];
  }

  /** An encoded record, cut into preamble, protected bits and CRC. */
  lemma RecordPieces(r: TileRecord, tail: Bits)
    ensures var b := r.ToBits() + tail;
      b[..16] == TILE_PREAMBLE && b[16..40] == r.ProtectedBits() && b[40..56] == IntToBits(r.Crc(), 16)
  {
    hide IntToBits, Crc16, TileRecord.ProtectedBits, TileRecord.Crc;
  }

  /** The fields of an encoded record are the record. */
  lemma EncodedFields(r: TileRecord, tail: Bits)
    requires r.Valid()
    ensures FieldsOf(r.ToBits() + tail) == r
    ensures BitsToInt((r.ToBits() + tail)[40..56]) == r.Crc()
  {
    hide BitsToInt, IntToBits, Crc16, TileRecord.ToBits, TileRecord.Crc, TileRecord.ProtectedBits;
    var b := r.ToBits() + tail;
    P.FieldWidths();
    P.FieldValue(r.version, 4);
    P.FieldValue(r.equationId, 16);
    P.FieldValue(r.rhs, 1);
    P.FieldValue(r.reserved, 3);
    P.FieldValue(r.Crc(), 16);
    ProtectedPieces(r);
    RecordPieces(r, tail);
    var p := r.ProtectedBits();
    P.SubSlice(b, 16, p, 0, 4);
    P.SubSlice(b, 16, p, 4, 20);
    P.SubSlice(b, 16, p, 20, 21);
    P.SubSlice(b, 16, p, 21, 24);
  }

  /**
    Where an encoded record holds what: the text `OR`, version, equation id, right-hand side,
    reserved bits, and a checksum over those four.
    */
  lemma RecordLayout(r: TileRecord)
    requires r.Valid()
    ensures var b := r.ToBits();
      && |b| == 56 && BitsToInt(b[..16]) == 0x4F52
      && BitsToInt(b[16..20]) == r.version && BitsToInt(b[20..36]) == r.equationId
      && BitsToInt(b[36..37]) == r.rhs && BitsToInt(b[37..40]) == r.reserved
      && BitsToInt(b[40..56]) == Crc16(BitsToBytes(b[16..40]))
  {
    EncodedFields(r, []);
    RecordPieces(r, []);
    assert r.ToBits() + [] == r.ToBits();
    PreambleIsText();
    hide BitsToInt, BitsToBytes, Crc16, TileRecord.ToBits, TileRecord.ProtectedBits, TILE_PREAMBLE;
  }

  lemma PreambleIsText()
    ensures |TILE_PREAMBLE| == 16 && BitsToInt(TILE_PREAMBLE) == 0x4F52
  {
    TileNibble(0); TileNibble(4); TileNibble(8); TileNibble(12);
    FourNibbles(TILE_PREAMBLE);
  }

  lemma TileNibble(at: nat)
    requires at in {0, 4, 8, 12}
    ensures |TILE_PREAMBLE| == 16 && P.Nibble(TILE_PREAMBLE, at, match at case 0 => 4 case 4 => 15 case 8 => 5 case _ => 2)
  {
    hide P.Nibble;
    P.NibbleOf(TILE_PREAMBLE, at);
  }

  lemma FourNibbles(bits: Bits)
    requires |bits| == 16 && P.Nibble(bits, 0, 4) && P.Nibble(bits, 4, 15) && P.Nibble(bits, 8, 5) && P.Nibble(bits, 12, 2)
    ensures BitsToInt(bits) == 0x4F52
  {
    assert bits[..0] == [] && bits[..16] == bits;
    FromNoDigits(2);
    hide FromDigits;
  }

  /** Decoding returns what was encoded, whatever follows. */
  lemma RecordRoundTrip(r: TileRecord, tail: Bits)
    requires r.Valid()
    ensures DecodeBits(r.ToBits() + tail, true) == Ok(r)
  {
    hide BitsToInt, Crc16, TileRecord.ToBits, TileRecord.ProtectedBits, FieldsOf, TileRecord.Crc, TileRecord.Valid;
    EncodedFields(r, tail);
    RecordPieces(r, tail);
  }

  /** Only encodings are accepted. */
  lemma RecordExact(b: Bits)
    requires DecodeBits(b, true).Ok?
    ensures var r := FieldsOf(b); DecodeBits(b, true) == Ok(r) && r.Valid() && b[..56] == r.ToBits()
  {
    hide BitsToInt, IntToBits, Crc16, FieldsOf, TileRecord.ProtectedBits, TileRecord.Crc, TileRecord.Valid;
    FieldsExact(b);
    assert b[..56] == b[..16] + b[16..40] + b[40..56];
  }

  /** The record codec is a bijection: decoding accepts exactly the encodings, and inverts them. */
  lemma RecordBijection(b: Bits, r: TileRecord)
    ensures DecodeBits(b, true) == Ok(r) <==> (|b| >= RECORD_BITS && r.Valid() && b[..56] == r.ToBits())
  {
    hide TileRecord.ToBits, FieldsOf, TileRecord.Crc, TileRecord.Valid, BitsToInt, TILE_PREAMBLE;
    if DecodeBits(b, true).Ok? { RecordExact(b); }
    if |b| >= RECORD_BITS && r.Valid() && b[..56] == r.ToBits() {
      assert b == r.ToBits() + b[56..];
      RecordRoundTrip(r, b[56..]);
    }
  }

  lemma ProtectedAndCrc(r: TileRecord)
    ensures r.ToBits()[16..56] == r.ProtectedBits() + IntToBits(r.Crc(), 16)
  {
    hide IntToBits, TileRecord.ProtectedBits, TileRecord.Crc;
  }

  lemma PairDetectable(e: Bits)
    requires |e| == 40 && (Detectable(e) || exists i: nat, j: nat :: TwoBits(e, i, j))
    ensures Detectable(e)
  {
    hide OddWeight, BurstAt;
    if i: nat, j: nat :| TwoBits(e, i, j) { assert PairAt(e, i, j); }
  }

  /** Exactly two bits are set. */
  predicate TwoBits(e: Bits, i: nat, j: nat) {
    i < j < |e| && forall k :: 0 <= k < |e| ==> (e[k] == 1 <==> k == i || k == j)
  }

  /**
    In a tile record, damage to the 40 bits behind the preamble is rejected when it flips an
    odd number of bits, two bits, or any bits within sixteen consecutive positions.
    */
  lemma TileDamageRejected(r: TileRecord, b: Bits)
    requires r.Valid() && |b| >= RECORD_BITS
    requires var e := XorBits(r.ToBits()[16..56], b[16..56]);
      Detectable(e) || exists i: nat, j: nat :: TwoBits(e, i, j)
    ensures DecodeBits(b, true) == Err
  {
    hide BitsToInt, IntToBits, BitsToBytes, BytesToBits, Crc16, XorBits, Detectable, TwoBits, TILE_PREAMBLE, FieldsOf,
      TileRecord.ToBits, TileRecord.ProtectedBits;
    PairDetectable(XorBits(r.ToBits()[16..56], b[16..56]));
    var r', crc' := FieldsOf(b), BitsToInt(b[40..56]);
    assert b[16..56] == r'.ProtectedBits() + IntToBits(crc', 16) && crc' < 0x1_0000 by {
      FieldsExact(b);
      assert b[16..56] == b[16..40] + b[40..56];
    }
    BitsBytesRoundTrip(r.ProtectedBits());
    BitsBytesRoundTrip(r'.ProtectedBits());
    ProtectedAndCrc(r);
    DamageDetected(BitsToBytes(r.ProtectedBits()), BitsToBytes(r'.ProtectedBits()), crc');
  }

  // ----- repetition -----

  /** `base * repetitions` */
  function Copies(base: Bits, n: nat): (c: Bits)
    ensures |c| == |base| * n
  {
    if n == 0 then [] else Copies(base, n - 1) + base
  }

  function EncodeRepeated(r: TileRecord, repetitions: int): (c: Result<Bits>) {
    if repetitions <= 0 then Err else Ok(Copies(r.ToBits(), repetitions))
  }

  /** The votes for record bit `i`, one from each copy. */
  function Votes(carrier: Bits, i: nat, repetitions: nat): (v: Bits)
    requires i < RECORD_BITS && RECORD_BITS * repetitions <= |carrier|
    ensures |v| == repetitions && forall c :: 0 <= c < repetitions ==> v[c] == carrier[i + c * RECORD_BITS]
  {
    seq(repetitions, c requires 0 <= c < repetitions => carrier[i + c * RECORD_BITS])
  }

  function VotedBits(carrier: Bits, repetitions: nat): (b: Bits)
    requires RECORD_BITS * repetitions <= |carrier|
    ensures |b| == RECORD_BITS
  {
    seq(RECORD_BITS, i requires 0 <= i < RECORD_BITS => Majority(Votes(carrier, i, repetitions)))
  }

  /** Votes against the majority over the first `n` record bits. */
  function Disagreements(carrier: Bits, repetitions: nat, n: nat): (d: nat)
    requires RECORD_BITS * repetitions <= |carrier| && n <= RECORD_BITS
    ensures 2 * d <= n * repetitions
  {
    if n == 0 then 0
    else
      var ones := Count(Votes(carrier, n - 1, repetitions), 1);
      var zeros := repetitions - ones;
      Disagreements(carrier, repetitions, n - 1) + (if ones < zeros then ones else zeros)
  }

  datatype RepeatedDecode = RepeatedDecode(record: TileRecord, repetitions: nat, bitDisagreements: nat, confidence: real)

  /** `1 - disagreements / total_votes` */
  function Confidence(disagreements: nat, repetitions: nat): (c: real)
    requires repetitions > 0
  {
    1.0 - disagreements as real / (RECORD_BITS * repetitions) as real
  }

  lemma ConfidenceAtLeastHalf(disagreements: nat, repetitions: nat)
    requires repetitions > 0 && 2 * disagreements <= RECORD_BITS * repetitions
    ensures 0.5 <= Confidence(disagreements, repetitions) <= 1.0
  {
    var total := (RECORD_BITS * repetitions) as real;
    assert 2.0 * disagreements as real <= total;
    assert disagreements as real / total <= 0.5;
  }

  function MajorityDecode(carrier: Bits, repetitions: int): (r: Result<RepeatedDecode>) {
    if repetitions <= 0 || |carrier| < RECORD_BITS * repetitions then Err
    else match DecodeBits(VotedBits(carrier, repetitions), true)
      case Err => Err
      case Ok(record) =>
        var d := Disagreements(carrier, repetitions, RECORD_BITS);
        Ok(RepeatedDecode(record, repetitions, d, Confidence(d, repetitions)))
  }

  /** Each record bit is 1 exactly when more than half of its copies are. */
  ghost predicate Elected(carrier: Bits, repetitions: nat, voted: Bits)
    requires RECORD_BITS * repetitions <= |carrier|
  {
    |voted| == RECORD_BITS
    && forall i :: 0 <= i < RECORD_BITS ==> (voted[i] == 1 <==> 2 * multiset(Votes(carrier, i, repetitions))[1] > repetitions)
  }

  /**
    The outcome for the elected bits: what they decode to, with the number of carrier bits that
    differ from its copies, and the share of those that do not.
    */
  ghost predicate DecodesElected(carrier: Bits, repetitions: nat, voted: Bits, r: Result<RepeatedDecode>)
    requires RECORD_BITS * repetitions <= |carrier|
  {
    && (r.Ok? <==> DecodeBits(voted, true).Ok?)
    && (r.Ok? ==> |voted| == RECORD_BITS && r.value.record == DecodeBits(voted, true).value && r.value.repetitions == repetitions
                  && r.value.bitDisagreements == Hamming(carrier[..RECORD_BITS * repetitions], Copies(voted, repetitions))
                  && r.value.confidence * (RECORD_BITS * repetitions) as real
                  == (RECORD_BITS * repetitions - r.value.bitDisagreements) as real)
  }

  lemma VotedAreElected(carrier: Bits, r: nat)
    requires RECORD_BITS * r <= |carrier|
    ensures Elected(carrier, r, VotedBits(carrier, r))
  {
    hide Count;
    forall i | 0 <= i < RECORD_BITS ensures VotedBits(carrier, r)[i] == 1 <==> 2 * multiset(Votes(carrier, i, r))[1] > r {
      CountIsMultiplicity(Votes(carrier, i, r), 1);
    }
  }

  /** Votes against the majority are flips of the elected bits. */
  lemma {:induction false} DisagreementsAgainstVoted(carrier: Bits, r: nat, n: nat)
    requires RECORD_BITS * r <= |carrier| && n <= RECORD_BITS
    ensures Disagreements(carrier, r, n) == ColumnFlips(carrier, VotedBits(carrier, r), r, n)
  {
    hide Votes, Count;
    if n > 0 {
      DisagreementsAgainstVoted(carrier, r, n - 1);
      CountBoth(Votes(carrier, n - 1, r));
    }
  }

  lemma MajorityDecodesElected(carrier: Bits, r: nat)
    requires 0 < RECORD_BITS * r <= |carrier|
    ensures DecodesElected(carrier, r, VotedBits(carrier, r), MajorityDecode(carrier, r))
  {
    hide DecodeBits, Hamming, ColumnFlips, Disagreements;
    DisagreementsAgainstVoted(carrier, r, RECORD_BITS);
    ColumnsAreFlips(carrier, VotedBits(carrier, r), r);
    ConfidenceShare(Disagreements(carrier, r, RECORD_BITS), r);
  }

  lemma ConfidenceShare(disagreements: nat, repetitions: nat)
    requires repetitions > 0
    ensures Confidence(disagreements, repetitions) * (RECORD_BITS * repetitions) as real
         == (RECORD_BITS * repetitions - disagreements) as real
  {
    var total := (RECORD_BITS * repetitions) as real;
    assert disagreements as real / total * total == disagreements as real;
  }

  /** A vote over the copies of every bit; without copies or enough bits it raises. */
  method MajorityDecodeRepeatedRecord(carrier: Bits, repetitions: int) returns (r: Result<RepeatedDecode>)
    ensures r == MajorityDecode(carrier, repetitions)
    ensures if repetitions <= 0 || |carrier| < RECORD_BITS * repetitions then r == Err
      else exists voted :: Elected(carrier, repetitions, voted) && DecodesElected(carrier, repetitions, voted, r)
  {
    if repetitions <= 0 || |carrier| < RECORD_BITS * repetitions {
      return Err;
    }
    var decoded: Bits := [];
    var disagreements := 0;
    for i := 0 to RECORD_BITS
      invariant |decoded| == i && forall j :: 0 <= j < i ==> decoded[j] == Majority(Votes(carrier, j, repetitions))
      invariant disagreements == Disagreements(carrier, repetitions, i)
    {
      var votes := Votes(carrier, i, repetitions);
      var ones := Ones(votes);
      var zeros := repetitions - ones;
      decoded := decoded + [if ones > zeros then 1 else 0];
      disagreements := disagreements + (if ones < zeros then ones else zeros);
    }
    assert decoded == VotedBits(carrier, repetitions);
    VotedAreElected(carrier, repetitions);
    MajorityDecodesElected(carrier, repetitions);
    hide Elected, DecodesElected, VotedBits, Disagreements, DecodeBits;
    var record :- DecodeBits(decoded, true);
    r := Ok(RepeatedDecode(record, repetitions, disagreements, Confidence(disagreements, repetitions)));
  }

  // ----- what the repetition survives -----

  /** The number of positions at which two bit strings differ. */
  function Hamming(a: Bits, b: Bits): (n: nat)
    requires |a| == |b|
  {
    if a == [] then 0
    else Hamming(a[..|a| - 1], b[..|b| - 1]) + (if a[|a| - 1] == b[|b| - 1] then 0 else 1)
  }

  lemma {:induction false} HammingConcat(a: Bits, b: Bits, c: Bits, d: Bits)
    requires |a| == |b| && |c| == |d|
    ensures Hamming(a + c, b + d) == Hamming(a, b) + Hamming(c, d)
  {
    if c == [] {
      assert a + c == a && b + d == b;
    } else {
      var n := |c| - 1;
      assert (a + c)[..|a + c| - 1] == a + c[..n] && (b + d)[..|b + d| - 1] == b + d[..n];
      HammingConcat(a, b, c[..n], d[..n]);
    }
  }

  /** The flips among the votes for the first `n` record bits. */
  function ColumnFlips(carrier: Bits, base: Bits, repetitions: nat, n: nat): (f: nat)
    requires RECORD_BITS * repetitions <= |carrier| && n <= |base| == RECORD_BITS
  {
    if n == 0 then 0
    else ColumnFlips(carrier, base, repetitions, n - 1) + Count(Votes(carrier, n - 1, repetitions), 1 - base[n - 1])
  }

  /** One more copy adds its own flips to the columns. */
  lemma {:induction false} ColumnsOfOneMoreCopy(carrier: Bits, base: Bits, r: nat, n: nat)
    requires RECORD_BITS * (r + 1) <= |carrier| && n <= |base| == RECORD_BITS
    ensures ColumnFlips(carrier, base, r + 1, n)
      == ColumnFlips(carrier, base, r, n) + Hamming(carrier[RECORD_BITS * r..RECORD_BITS * r + n], base[..n])
  {
    hide Votes, Count, Copies;
    if n == 0 {
      NothingDiffers(carrier, base, RECORD_BITS * r);
      hide Hamming;
    } else {
      ColumnsOfOneMoreCopy(carrier, base, r, n - 1);
      OneMoreVote(carrier, r, n - 1, 1 - base[n - 1]);
      HammingStretch(carrier, base, RECORD_BITS * r, n - 1);
      hide Hamming;
    }
  }

  lemma NothingDiffers(carrier: Bits, base: Bits, at: nat)
    requires at <= |carrier|
    ensures Hamming(carrier[at..at + 0], base[..0]) == 0
  {
  }

  lemma HammingStretch(carrier: Bits, base: Bits, at: nat, n: nat)
    requires at + n < |carrier| && n < |base|
    ensures Hamming(carrier[at..at + (n + 1)], base[..n + 1])
         == Hamming(carrier[at..at + n], base[..n]) + (if carrier[at + n] == base[n] then 0 else 1)
  {
    var row := carrier[at..at + (n + 1)];
    assert row[..n] == carrier[at..at + n] && row[n] == carrier[at + n];
    assert base[..n + 1][..n] == base[..n];
  }

  lemma OneMoreVote(carrier: Bits, r: nat, i: nat, b: bit)
    requires RECORD_BITS * (r + 1) <= |carrier| && i < RECORD_BITS
    ensures Count(Votes(carrier, i, r + 1), b)
         == Count(Votes(carrier, i, r), b) + (if carrier[RECORD_BITS * r + i] == b then 1 else 0)
  {
    var votes := Votes(carrier, i, r + 1);
    assert votes[..r] == Votes(carrier, i, r);
    assert votes[r] == carrier[i + r * RECORD_BITS];
  }

  /** Counting flips by column or along the carrier is the same. */
  lemma {:induction false} ColumnsAreFlips(carrier: Bits, base: Bits, r: nat)
    requires RECORD_BITS * r <= |carrier| && |base| == RECORD_BITS
    ensures ColumnFlips(carrier, base, r, RECORD_BITS) == Hamming(carrier[..RECORD_BITS * r], Copies(base, r))
  {
    if r == 0 {
      NoCopies(carrier, base, RECORD_BITS);
    } else {
      hide ColumnFlips, Hamming, Copies;
      ColumnsAreFlips(carrier, base, r - 1);
      CopyFlips(carrier, base, r - 1);
    }
  }

  lemma CopyFlips(carrier: Bits, base: Bits, r: nat)
    requires RECORD_BITS * (r + 1) <= |carrier| && |base| == RECORD_BITS
    requires ColumnFlips(carrier, base, r, RECORD_BITS) == Hamming(carrier[..RECORD_BITS * r], Copies(base, r))
    ensures ColumnFlips(carrier, base, r + 1, RECORD_BITS) == Hamming(carrier[..RECORD_BITS * (r + 1)], Copies(base, r + 1))
  {
    hide ColumnFlips, Hamming, Copies;
    ColumnsOfOneMoreCopy(carrier, base, r, RECORD_BITS);
    LastCopy(carrier, base, r);
  }

  lemma LastCopy(carrier: Bits, base: Bits, r: nat)
    requires RECORD_BITS * (r + 1) <= |carrier| && |base| == RECORD_BITS
    ensures Hamming(carrier[..RECORD_BITS * (r + 1)], Copies(base, r + 1))
         == Hamming(carrier[..RECORD_BITS * r], Copies(base, r))
            + Hamming(carrier[RECORD_BITS * r..RECORD_BITS * r + RECORD_BITS], base[..RECORD_BITS])
  {
    hide Hamming;
    var m := RECORD_BITS * r;
    var last := carrier[m..m + RECORD_BITS];
    assert carrier[..RECORD_BITS * (r + 1)] == carrier[..m] + last && base[..RECORD_BITS] == base;
    HammingConcat(carrier[..m], Copies(base, r), last, base);
  }

  lemma {:induction false} NoCopies(carrier: Bits, base: Bits, n: nat)
    requires n <= |base| == RECORD_BITS
    ensures ColumnFlips(carrier, base, 0, n) == 0
  {
    if n > 0 { NoCopies(carrier, base, n - 1); }
  }

  /** Fewer than half of the votes for every record bit are flipped. */
  predicate FewFlipsPerBit(carrier: Bits, base: Bits, repetitions: nat)
    requires RECORD_BITS * repetitions <= |carrier| && |base| == RECORD_BITS
  {
    forall i :: 0 <= i < RECORD_BITS ==> 2 * Count(Votes(carrier, i, repetitions), 1 - base[i]) < repetitions
  }

  lemma VotedBitsSurvive(carrier: Bits, base: Bits, r: nat)
    requires RECORD_BITS * r <= |carrier| && |base| == RECORD_BITS && FewFlipsPerBit(carrier, base, r)
    ensures VotedBits(carrier, r) == base
  {
    forall i | 0 <= i < RECORD_BITS ensures Majority(Votes(carrier, i, r)) == base[i] {
      CountBoth(Votes(carrier, i, r));
      MajorityWins(Votes(carrier, i, r), base[i]);
    }
  }

  lemma {:induction false} DisagreementsAreFlips(carrier: Bits, base: Bits, r: nat, n: nat)
    requires RECORD_BITS * r <= |carrier| && n <= |base| == RECORD_BITS && FewFlipsPerBit(carrier, base, r)
    ensures Disagreements(carrier, r, n) == ColumnFlips(carrier, base, r, n)
  {
    if n > 0 {
      hide Votes, Count;
      DisagreementsAreFlips(carrier, base, r, n - 1);
      CountBoth(Votes(carrier, n - 1, r));
      assert 2 * Count(Votes(carrier, n - 1, r), 1 - base[n - 1]) < r;
    }
  }

  /**
    For every repetition count, odd or even: flips that hit each record bit in fewer than half
    of its copies leave the record intact, and the reported disagreements are the flips.
    */
  lemma RepeatedRecordSurvives(record: TileRecord, carrier: Bits, r: nat)
    requires record.Valid() && r > 0 && RECORD_BITS * r <= |carrier|
    requires FewFlipsPerBit(carrier, record.ToBits(), r)
    ensures var flips := Hamming(carrier[..RECORD_BITS * r], Copies(record.ToBits(), r));
      MajorityDecode(carrier, r) == Ok(RepeatedDecode(record, r, flips, Confidence(flips, r)))
  {
    hide TileRecord.ToBits, Hamming, FewFlipsPerBit;
    var base := record.ToBits();
    VotedBitsSurvive(carrier, base, r);
    RecordBijection(base, record);
    assert base[..56] == base;
    DisagreementsAreFlips(carrier, base, r, RECORD_BITS);
    ColumnsAreFlips(carrier, base, r);
  }

  /** All flips lie in the stretch of `len` carrier positions that starts at `at`. */
  predicate FlipsWithin(carrier: Bits, base: Bits, repetitions: nat, at: nat, len: nat)
    requires RECORD_BITS * repetitions <= |carrier| && |base| == RECORD_BITS
  {
    forall i, c {:trigger Votes(carrier, i, repetitions)[c]} :: 0 <= i < RECORD_BITS && 0 <= c < repetitions ==>
      (Votes(carrier, i, repetitions)[c] != base[i] ==> at <= i + c * RECORD_BITS < at + len)
  }

  /** Bits that equal `b` outside a stretch differ from it at most along the stretch. */
  lemma {:induction false} CountOutside(bits: Bits, b: bit, lo: nat, hi: nat)
    requires lo <= hi && forall i :: 0 <= i < |bits| && !(lo <= i < hi) ==> bits[i] == b
    ensures Count(bits, 1 - b) <= hi - lo
    ensures |bits| <= hi && |bits| >= lo ==> Count(bits, 1 - b) <= |bits| - lo
    ensures |bits| <= lo ==> Count(bits, 1 - b) == 0
  {
    if bits != [] { CountOutside(bits[..|bits| - 1], b, lo, hi); }
  }

  /**
    Every burst of at most `56 * ((r - 1) / 2)` consecutive carrier flips leaves the record
    intact.
    */
  lemma BurstSurvived(record: TileRecord, carrier: Bits, r: nat, at: nat, len: nat)
    requires record.Valid() && r > 0 && RECORD_BITS * r <= |carrier|
    requires len <= RECORD_BITS * ((r - 1) / 2) && FlipsWithin(carrier, record.ToBits(), r, at, len)
    ensures var flips := Hamming(carrier[..RECORD_BITS * r], Copies(record.ToBits(), r));
      MajorityDecode(carrier, r) == Ok(RepeatedDecode(record, r, flips, Confidence(flips, r)))
  {
    hide TileRecord.ToBits, Hamming, MajorityDecode;
    var base, t := record.ToBits(), (r - 1) / 2;
    forall i | 0 <= i < RECORD_BITS ensures 2 * Count(Votes(carrier, i, r), 1 - base[i]) < r {
      var lo: nat := if at <= i then 0 else (at - i + 55) / 56;
      assert i + lo * RECORD_BITS >= at;
      forall c | 0 <= c < r && !(lo <= c < lo + t) ensures Votes(carrier, i, r)[c] == base[i] {
        assert c < lo ==> i + c * RECORD_BITS < at;
        assert c >= lo + t ==> i + c * RECORD_BITS >= at + len;
      }
      CountOutside(Votes(carrier, i, r), base[i], lo, lo + t);
    }
    RepeatedRecordSurvives(record, carrier, r);
  }

  /** The flips are exactly the stretch of `len` carrier positions that starts at `at`. */
  predicate FlipsExactly(carrier: Bits, base: Bits, repetitions: nat, at: nat, len: nat)
    requires RECORD_BITS * repetitions <= |carrier| && |base| == RECORD_BITS
  {
    forall i, c {:trigger Votes(carrier, i, repetitions)[c]} :: 0 <= i < RECORD_BITS && 0 <= c < repetitions ==>
      (Votes(carrier, i, repetitions)[c] != base[i] <==> at <= i + c * RECORD_BITS < at + len)
  }

  /**
    A burst of one flip more than is always survived, inside the copies; for an even number of
    copies it starts with a 1.
    */
  predicate OneTooMany(carrier: Bits, base: Bits, r: nat, at: nat)
    requires RECORD_BITS * r <= |carrier| && |base| == RECORD_BITS && r > 0
  {
    && at + RECORD_BITS * ((r - 1) / 2) < RECORD_BITS * r && FlipsExactly(carrier, base, r, at, RECORD_BITS * ((r - 1) / 2) + 1)
    && (r % 2 == 1 || base[at % RECORD_BITS] == 1)
  }

  /** One more flip loses the bit the burst starts with, and no other. */
  lemma BurstVotes(base: Bits, carrier: Bits, r: nat, at: nat)
    requires |base| == RECORD_BITS && r > 0 && RECORD_BITS * r <= |carrier| && OneTooMany(carrier, base, r, at)
    ensures VotedBits(carrier, r) == base[at % RECORD_BITS := 1 - base[at % RECORD_BITS]]
  {
    hide Count;
    var first, copy, t := at % RECORD_BITS, at / RECORD_BITS, (r - 1) / 2;
    assert at == first + copy * RECORD_BITS;
    forall i | 0 <= i < RECORD_BITS
      ensures Majority(Votes(carrier, i, r)) == if i == first then 1 - base[i] else base[i]
    {
      var votes := Votes(carrier, i, r);
      CountBoth(votes);
      if i == first {
        forall c | copy <= c < copy + t + 1 ensures votes[c] == 1 - base[i] {
          assert at <= i + c * RECORD_BITS < at + RECORD_BITS * t + 1;
        }
        CountStretch(votes, 1 - base[i], copy, copy + t + 1);
      } else {
        var lo := if i < first then copy + 1 else copy;
        forall c | 0 <= c < r && !(lo <= c < lo + t) ensures votes[c] == base[i] {
          assert !(at <= i + c * RECORD_BITS < at + RECORD_BITS * t + 1);
        }
        CountOutside(votes, base[i], lo, lo + t);
      }
    }
  }

  lemma {:induction false} OneOdd(e: Bits, i: nat)
    requires i < |e| && forall k :: 0 <= k < |e| ==> (e[k] == 1 <==> k == i)
    ensures OddWeight(e)
  {
    if i > 0 { OneOdd(e[1..], i - 1); } else { NoneEven(e[1..]); }
  }

  lemma {:induction false} NoneEven(e: Bits)
    requires forall k :: 0 <= k < |e| ==> e[k] == 0
    ensures !OddWeight(e)
  {
    if e != [] { NoneEven(e[1..]); }
  }

  lemma OneFlip(base: Bits, b: Bits, i: nat)
    requires |base| == |b| == RECORD_BITS && i < RECORD_BITS && forall k :: 0 <= k < RECORD_BITS ==> (b[k] != base[k] <==> k == i)
    ensures i < 16 ==> b[..16] != base[..16]
    ensures i >= 16 ==> OddWeight(XorBits(base[16..56], b[16..56]))
  {
    if i < 16 {
      assert b[..16][i] != base[..16][i];
    } else {
      var e := XorBits(base[16..56], b[16..56]);
      forall k | 0 <= k < |e| ensures e[k] == 1 <==> k == i - 16 { assert base[16..56][k] == base[16 + k] && b[16..56][k] == b[16 + k]; }
      OneOdd(e, i - 16);
    }
  }

  /** A record with one flipped bit is refused. */
  lemma OneFlipRejected(r: TileRecord, b: Bits, i: nat)
    requires r.Valid() && |b| == RECORD_BITS && i < RECORD_BITS
    requires forall k :: 0 <= k < RECORD_BITS ==> (b[k] != r.ToBits()[k] <==> k == i)
    ensures DecodeBits(b, true) == Err
  {
    hide TileRecord.Valid, TileRecord.Crc, FieldsOf, TILE_PREAMBLE, XorBits, OddWeight, TileRecord.ProtectedBits, IntToBits;
    assert r.ToBits()[..16] == TILE_PREAMBLE;
    hide TileRecord.ToBits;
    OneFlip(r.ToBits(), b, i);
    if i >= 16 { TileDamageRejected(r, b); }
  }

  /**
    The bound is tight: one flip more, wherever the burst lies, and the record is lost, for every
    odd repetition count, and for an even one when the burst starts with a 1.
    */
  lemma BurstBoundTight(record: TileRecord, carrier: Bits, r: nat, at: nat)
    requires record.Valid() && r > 0 && RECORD_BITS * r <= |carrier| && OneTooMany(carrier, record.ToBits(), r, at)
    ensures MajorityDecode(carrier, r) == Err
  {
    hide TileRecord.ToBits, TileRecord.Valid, DecodeBits, OneTooMany, VotedBits;
    BurstVotes(record.ToBits(), carrier, r, at);
    OneFlipRejected(record, VotedBits(carrier, r), at % RECORD_BITS);
  }
}
