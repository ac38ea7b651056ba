/**
  The rateless alpha-channel carrier: one repeated tile record in the alpha low bits of every
  complete tile of a decoded pixel array.
  */
module ImageAlpha {
  import opened Wrappers
  import opened Digits
  import opened BitInts
  import opened Crc
  import opened Records
  import E = Equations
  import LA = LinearAlgebra
  import Ecc
  import P = Payload

  datatype Pixel = Pixel(r: byte, g: byte, b: byte, a: byte)

  /** `(equation_id, x0, y0)` */
  datatype Tile = Tile(id: nat, x0: nat, y0: nat)

  datatype Extraction =
    | Extracted(payload: P.WatermarkPayload, tilesSeen: nat, equationsRecovered: nat, decodeFailures: nat)
    | NoWatermark(tilesSeen: nat, equationsRecovered: nat, decodeFailures: nat)
    | Error

  // ----- what tiles say about a key -----

  /** The record states a true equation about the key. */
  ghost predicate Genuine(p: E.Profile, key: nat, record: TileRecord)
    requires p.keyBytes > 0
  {
    exists mask: nat :: E.IsSparseMask(p, record.equationId, mask) && (record.rhs == 1 <==> Dot(mask, key))
  }

  /** The record that embedding `key` puts into tile `id`. */
  ghost predicate OwnRecord(p: E.Profile, key: nat, id: nat, record: TileRecord)
    requires p.keyBytes > 0
  {
    record == TileRecord(id, record.rhs, 1, 0) && record.Valid() && id <= p.maxEquationId && Genuine(p, key, record)
  }

  ghost predicate HoldsOwn(p: E.Profile, key: nat, id: nat, reading: Result<RepeatedDecode>)
    requires p.keyBytes > 0
  {
    reading.Ok? && OwnRecord(p, key, id, reading.value.record)
  }

  /** Every tile decodes to its own record. */
  ghost predicate Intact(p: E.Profile, key: nat, readings: seq<Result<RepeatedDecode>>)
    requires p.keyBytes > 0
  {
    forall id :: 0 <= id < |readings| ==> HoldsOwn(p, key, id, readings[id])
  }

  /** Every tile decodes to its own record or fails to decode. */
  ghost predicate OwnOrLost(p: E.Profile, key: nat, readings: seq<Result<RepeatedDecode>>)
    requires p.keyBytes > 0
  {
    forall id :: 0 <= id < |readings| ==> readings[id].Err? || HoldsOwn(p, key, id, readings[id])
  }

  /** The reading yields an equation: it decoded, and the profile knows the id. */
  predicate Usable(p: E.Profile, reading: Result<RepeatedDecode>) {
    reading.Ok? && reading.value.record.equationId <= p.maxEquationId
  }

  /** Every usable reading states a true equation about the key. */
  ghost predicate AllGenuine(p: E.Profile, key: nat, readings: seq<Result<RepeatedDecode>>)
    requires p.keyBytes > 0
  {
    forall i :: 0 <= i < |readings| && Usable(p, readings[i]) ==> Genuine(p, key, readings[i].value.record)
  }

  /** `eqs` holds one equation per usable reading, in order. */
  ghost predicate Recovered(p: E.Profile, readings: seq<Result<RepeatedDecode>>, eqs: seq<E.RatelessEquation>)
    requires p.keyBytes > 0
  {
    if readings == [] then eqs == []
    else
      var n := |readings| - 1;
      if Usable(p, readings[n]) then
        eqs != [] && FromReading(p, readings[n].value, eqs[|eqs| - 1]) && Recovered(p, readings[..n], eqs[..|eqs| - 1])
      else Recovered(p, readings[..n], eqs)
  }

  /** The reading's id, right-hand side and confidence, with the regenerated row. */
  ghost predicate FromReading(p: E.Profile, d: RepeatedDecode, eq: E.RatelessEquation)
    requires p.keyBytes > 0
  {
    && eq.equationId == d.record.equationId && eq.rhs == d.record.rhs && eq.confidence == d.confidence
    && E.IsSparseMask(p, eq.equationId, eq.mask)
  }

  lemma {:induction false} RecoveredRows(p: E.Profile, readings: seq<Result<RepeatedDecode>>, eqs: seq<E.RatelessEquation>)
    requires p.keyBytes > 0 && Recovered(p, readings, eqs)
    ensures forall i :: 0 <= i < |eqs| ==> eqs[i].mask < Pow2(p.Width())
  {
    if readings != [] {
      var n := |readings| - 1;
      if Usable(p, readings[n]) { RecoveredRows(p, readings[..n], eqs[..|eqs| - 1]); }
      else { RecoveredRows(p, readings[..n], eqs); }
    }
  }

  /** Equations recovered from genuine readings are honest. */
  lemma {:induction false} GenuineReadings(p: E.Profile, key: nat, readings: seq<Result<RepeatedDecode>>, eqs: seq<E.RatelessEquation>)
    requires p.keyBytes > 0 && Recovered(p, readings, eqs) && AllGenuine(p, key, readings)
    ensures E.AllHonest(p, key, eqs)
  {
    hide E.IsSparseMask;
    if readings != [] {
      var n := |readings| - 1;
      if Usable(p, readings[n]) {
        var eq := eqs[|eqs| - 1];
        GenuineReadings(p, key, readings[..n], eqs[..|eqs| - 1]);
        assert Genuine(p, key, readings[n].value.record);
        var mask: nat :| E.IsSparseMask(p, eq.equationId, mask) && (eq.rhs == 1 <==> Dot(mask, key));
        E.SparseMaskUnique(p, eq.equationId, mask, eq.mask);
      } else {
        GenuineReadings(p, key, readings[..n], eqs);
      }
    }
  }

  /** Freshly embedded tiles decode to their own records. */
  lemma EmbeddedIntact(p: E.Profile, key: nat, tiles: seq<Bits>, repetitions: int)
    requires p.keyBytes > 0 && Embedded(p, key, tiles, repetitions)
    ensures Intact(p, key, ReadTiles(tiles, repetitions))
  {
    hide MajorityDecode, OwnRecord, Copies, Confidence, TileRecord.ToBits, TileRecord.Valid;
    forall id | 0 <= id < |tiles| ensures HoldsOwn(p, key, id, ReadTiles(tiles, repetitions)[id]) {
      var record :| OwnRecord(p, key, id, record) && Copies(record.ToBits(), repetitions) <= tiles[id];
      OwnIsValid(p, key, id, record);
      IntactDecodes(record, tiles[id], repetitions);
    }
  }

  /** A tile that holds its own record or none never lies about the key. */
  lemma OwnOrLostIsGenuine(p: E.Profile, key: nat, readings: seq<Result<RepeatedDecode>>)
    requires p.keyBytes > 0 && OwnOrLost(p, key, readings)
    ensures AllGenuine(p, key, readings)
  {
  }

  lemma DecodedValid(carrier: Bits, repetitions: int)
    requires MajorityDecode(carrier, repetitions).Ok?
    ensures MajorityDecode(carrier, repetitions).value.record.Valid()
    ensures MajorityDecode(carrier, repetitions).value.record.rhs < 2 && MajorityDecode(carrier, repetitions).value.confidence >= 0.0
  {
    ConfidenceAtLeastHalf(Disagreements(carrier, repetitions, RECORD_BITS), repetitions);
    hide DecodeBits, Disagreements, Confidence;
    RecordExact(VotedBits(carrier, repetitions));
  }

  lemma {:induction false} HammingSame(a: Bits)
    ensures Hamming(a, a) == 0
  {
    if a != [] { HammingSame(a[..|a| - 1]); }
  }

  lemma {:induction false} CopiesAt(base: Bits, n: nat, c: nat, i: nat)
    requires |base| == RECORD_BITS && c < n && i < RECORD_BITS
    ensures i + c * RECORD_BITS < RECORD_BITS * n && Copies(base, n)[i + c * RECORD_BITS] == base[i]
  {
    if c < n - 1 { CopiesAt(base, n - 1, c, i); }
  }

  lemma {:induction false} CountNone(bits: Bits, b: bit)
    requires forall i :: 0 <= i < |bits| ==> bits[i] == b
    ensures Ecc.Count(bits, 1 - b) == 0
  {
    if bits != [] { CountNone(bits[..|bits| - 1], b); }
  }

  lemma CopiesVote(base: Bits, carrier: Bits, r: nat, i: nat)
    requires |base| == RECORD_BITS && Copies(base, r) <= carrier && i < RECORD_BITS
    ensures forall c :: 0 <= c < r ==> Votes(carrier, i, r)[c] == base[i]
  {
    hide Copies;
    forall c | 0 <= c < r ensures Votes(carrier, i, r)[c] == base[i] { CopiesAt(base, r, c, i); }
  }

  lemma NoFlips(base: Bits, carrier: Bits, r: nat)
    requires |base| == RECORD_BITS && r > 0 && Copies(base, r) <= carrier
    ensures FewFlipsPerBit(carrier, base, r)
  {
    hide Copies, Ecc.Count;
    forall i | 0 <= i < RECORD_BITS ensures 2 * Ecc.Count(Votes(carrier, i, r), 1 - base[i]) < r {
      CopiesVote(base, carrier, r, i);
      CountNone(Votes(carrier, i, r), base[i]);
    }
  }

  /** Untouched copies decode to their record without disagreement. */
  lemma IntactDecodes(record: TileRecord, carrier: Bits, r: nat)
    requires record.Valid() && r > 0 && Copies(record.ToBits(), r) <= carrier
    ensures MajorityDecode(carrier, r) == Ok(RepeatedDecode(record, r, 0, Confidence(0, r)))
  {
    hide TileRecord.ToBits, Hamming, MajorityDecode, TileRecord.Valid, FewFlipsPerBit, Confidence, Copies;
    var base := record.ToBits();
    NoFlips(base, carrier, r);
    assert carrier[..RECORD_BITS * r] == Copies(base, r);
    HammingSame(Copies(base, r));
    RepeatedRecordSurvives(record, carrier, r);
  }

  // ----- from embedding through damage to extraction, on the bits of the tiles -----

  /** What the tiles decode to. */
  function ReadTiles(tiles: seq<Bits>, repetitions: int): (ds: seq<Result<RepeatedDecode>>)
    ensures |ds| == |tiles| && forall i :: 0 <= i < |ds| ==> ds[i] == MajorityDecode(tiles[i], repetitions)
  {
    seq(|tiles|, i requires 0 <= i < |tiles| => MajorityDecode(tiles[i], repetitions))
  }

  /** The tile begins with the copies of its own record. */
  ghost predicate CarriesOwn(p: E.Profile, key: nat, id: nat, tile: Bits, repetitions: nat)
    requires p.keyBytes > 0
  {
    exists record: TileRecord :: OwnRecord(p, key, id, record) && Copies(record.ToBits(), repetitions) <= tile
  }

  /** Every tile carries a record of its own equation about the key. */
  ghost predicate Embedded(p: E.Profile, key: nat, tiles: seq<Bits>, repetitions: int)
    requires p.keyBytes > 0
  {
    repetitions > 0 && forall id :: 0 <= id < |tiles| ==> CarriesOwn(p, key, id, tiles[id], repetitions)
  }

  /** What stands in a record of tile `id`: the text `OR`, version 1, the id, one true equation bit, zeros, the checksum. */
  ghost predicate StatesEquation(p: E.Profile, key: nat, id: nat, b: Bits)
    requires p.keyBytes > 0 && |b| == RECORD_BITS
  {
    && BitsToInt(b[..16]) == 0x4F52 && BitsToInt(b[16..20]) == 1 && BitsToInt(b[20..36]) == id && BitsToInt(b[37..40]) == 0
    && BitsToInt(b[40..56]) == Crc16(BitsToBytes(b[16..40]))
    && exists mask: nat :: E.IsSparseMask(p, id, mask) && (BitsToInt(b[36..37]) == 1 <==> Dot(mask, key))
  }

  /** Every copy in an embedded tile is such a record. */
  lemma EmbeddedLayout(p: E.Profile, key: nat, tiles: seq<Bits>, repetitions: int, id: nat, c: nat)
    requires p.keyBytes > 0 && Embedded(p, key, tiles, repetitions) && id < |tiles| && c < repetitions
    ensures RECORD_BITS * (c + 1) <= |tiles[id]|
    ensures StatesEquation(p, key, id, tiles[id][RECORD_BITS * c..RECORD_BITS * (c + 1)])
  {
    hide TileRecord.ToBits, Copies, E.IsSparseMask, BitsToInt, BitsToBytes, Crc16, OwnRecord;
    assert CarriesOwn(p, key, id, tiles[id], repetitions);
    var record :| OwnRecord(p, key, id, record) && Copies(record.ToBits(), repetitions) <= tiles[id];
    OwnIsValid(p, key, id, record);
    MulMonotone(RECORD_BITS, c + 1, repetitions);
    CopySlice(record.ToBits(), repetitions, tiles[id], c);
    RecordLayout(record);
    OwnStates(p, key, id, record);
  }

  lemma OwnStates(p: E.Profile, key: nat, id: nat, record: TileRecord)
    requires p.keyBytes > 0 && OwnRecord(p, key, id, record)
    ensures record.version == 1 && record.reserved == 0 && record.equationId == id
    ensures exists mask: nat :: E.IsSparseMask(p, id, mask) && (record.rhs == 1 <==> Dot(mask, key))
  {
  }

  lemma CopySlice(base: Bits, n: nat, tile: Bits, c: nat)
    requires |base| == RECORD_BITS && c < n && Copies(base, n) <= tile
    ensures RECORD_BITS * (c + 1) <= |tile| && tile[RECORD_BITS * c..RECORD_BITS * (c + 1)] == base
  {
    hide Copies;
    MulMonotone(RECORD_BITS, c + 1, n);
    forall i | 0 <= i < RECORD_BITS ensures tile[RECORD_BITS * c + i] == base[i] { CopiesAt(base, n, c, i); }
  }

  /** Of each record bit fewer than half of the copies differ. */
  predicate FewCopiesFlipped(sent: Bits, received: Bits, repetitions: nat)
    requires RECORD_BITS * repetitions <= |sent| && RECORD_BITS * repetitions <= |received|
  {
    forall i :: 0 <= i < RECORD_BITS ==> 2 * Hamming(Votes(received, i, repetitions), Votes(sent, i, repetitions)) < repetitions
  }

  /** A tile is lightly damaged. */
  predicate Light(sent: Bits, received: Bits, repetitions: int) {
    && 0 < RECORD_BITS * repetitions <= |sent| && RECORD_BITS * repetitions <= |received|
    && FewCopiesFlipped(sent, received, repetitions)
  }

  /** However damaged, the tile decodes to the record it was sent with. */
  predicate KeepsRecord(sent: Bits, received: Bits, repetitions: int) {
    && MajorityDecode(sent, repetitions).Ok? && MajorityDecode(received, repetitions).Ok?
    && MajorityDecode(received, repetitions).value.record == MajorityDecode(sent, repetitions).value.record
  }

  /** Every tile is lightly damaged, or keeps its record all the same, or no longer decodes. */
  predicate Damaged(sent: seq<Bits>, received: seq<Bits>, repetitions: int) {
    |received| == |sent| && forall id :: 0 <= id < |sent| ==>
      || Light(sent[id], received[id], repetitions) || KeepsRecord(sent[id], received[id], repetitions)
      || MajorityDecode(received[id], repetitions).Err?
  }

  /** The outcome of extraction from tiles, with the equations collected on the way. */
  ghost predicate ExtractsTo(p: E.Profile, tiles: seq<Bits>, repetitions: int, e: Extraction, eqs: seq<E.RatelessEquation>)
    requires p.keyBytes > 0
  {
    && !e.Error? && e.tilesSeen == |tiles| && e.equationsRecovered == |eqs| && e.decodeFailures == |tiles| - |eqs|
    && Recovered(p, ReadTiles(tiles, repetitions), eqs)
    && (e.Extracted? ==> Locates(e.payload, e.payload.pointer))
    && (forall key: Bytes :: |key| == 20 ==> (e.Extracted? && e.payload.pointer == key <==> E.OnlySolution(p, eqs, BytesToInt(key))))
    && forall key: Bytes :: |key| == 20 && AllGenuine(p, BytesToInt(key), ReadTiles(tiles, repetitions)) ==> ByRank(e, eqs, key)
  }

  /** The key when the surviving rows have full rank, and nothing otherwise. */
  predicate ByRank(e: Extraction, eqs: seq<E.RatelessEquation>, key: Bytes) {
    if LA.Rank(E.RowsOf(eqs)) == 160 then e.Extracted? && Locates(e.payload, key) else e.NoWatermark?
  }

  /** A well-formed payload that points to the key: mode, version and algorithm id of this carrier, and a right checksum. */
  predicate Locates(payload: P.WatermarkPayload, key: Bytes) {
    && payload.pointer == key && payload.mode == P.Full160Rateless && payload.version == 1 && payload.wmAlgId == 0x013
    && payload.extraFlags == 0 && payload.Valid() && payload.crc16 == Some(payload.ComputeCrc16())
  }

  /** The payload built around a recovered key. */
  function LocatorPayload(key: Bytes): (p: P.WatermarkPayload)
    requires |key| == 20
    ensures p.pointer == key && Locates(p, key)
  {
    P.CrcOfFields(P.WatermarkPayload(1, 0x013, P.Full160Rateless, key, 0, None));
    P.WatermarkPayload(1, 0x013, P.Full160Rateless, key, 0, None).WithComputedCrc()
  }

  lemma {:induction false} HammingToConstant(a: Bits, b: Bits, x: bit)
    requires |a| == |b| && forall i :: 0 <= i < |b| ==> b[i] == x
    ensures Hamming(a, b) == Ecc.Count(a, 1 - x)
  {
    if a != [] { HammingToConstant(a[..|a| - 1], b[..|b| - 1], x); }
  }

  /** A lightly damaged tile still decodes to its record. */
  lemma LightDecodes(record: TileRecord, sent: Bits, received: Bits, r: nat)
    requires record.Valid() && Copies(record.ToBits(), r) <= sent && Light(sent, received, r)
    ensures MajorityDecode(received, r).Ok? && MajorityDecode(received, r).value.record == record
  {
    hide TileRecord.ToBits, Hamming, MajorityDecode, TileRecord.Valid, Copies, Confidence, Ecc.Count;
    var base := record.ToBits();
    forall i | 0 <= i < RECORD_BITS ensures 2 * Ecc.Count(Votes(received, i, r), 1 - base[i]) < r {
      CopiesVote(base, sent, r, i);
      HammingToConstant(Votes(received, i, r), Votes(sent, i, r), base[i]);
    }
    RepeatedRecordSurvives(record, received, r);
  }

  lemma DamagedTiles(p: E.Profile, key: nat, sent: seq<Bits>, received: seq<Bits>, repetitions: int)
    requires p.keyBytes > 0 && Embedded(p, key, sent, repetitions) && Damaged(sent, received, repetitions)
    ensures OwnOrLost(p, key, ReadTiles(received, repetitions))
    ensures forall id :: 0 <= id < |sent| && Light(sent[id], received[id], repetitions) ==> MajorityDecode(received[id], repetitions).Ok?
  {
    hide MajorityDecode, Light, KeepsRecord, CarriesOwn, HoldsOwn;
    forall id | 0 <= id < |sent| && (Light(sent[id], received[id], repetitions) || KeepsRecord(sent[id], received[id], repetitions))
      ensures HoldsOwn(p, key, id, MajorityDecode(received[id], repetitions))
      ensures MajorityDecode(received[id], repetitions).Ok?
    {
      DamagedTile(p, key, id, sent[id], received[id], repetitions);
    }
  }

  lemma DamagedTile(p: E.Profile, key: nat, id: nat, sent: Bits, received: Bits, r: nat)
    requires p.keyBytes > 0 && r > 0 && CarriesOwn(p, key, id, sent, r)
    requires Light(sent, received, r) || KeepsRecord(sent, received, r)
    ensures MajorityDecode(received, r).Ok? && HoldsOwn(p, key, id, MajorityDecode(received, r))
  {
    hide MajorityDecode, Light, OwnRecord, Copies, Confidence, TileRecord.ToBits, TileRecord.Valid;
    var record :| OwnRecord(p, key, id, record) && Copies(record.ToBits(), r) <= sent;
    OwnIsValid(p, key, id, record);
    if Light(sent, received, r) {
      LightDecodes(record, sent, received, r);
    } else {
      IntactDecodes(record, sent, r);
    }
  }

  lemma OwnIsValid(p: E.Profile, key: nat, id: nat, record: TileRecord)
    requires p.keyBytes > 0 && OwnRecord(p, key, id, record)
    ensures record.Valid() && record.equationId == id <= p.maxEquationId
  {
  }

  /** The ids of the tiles that decode. */
  function Surviving(readings: seq<Result<RepeatedDecode>>): (ids: set<nat>) {
    set id | 0 <= id < |readings| && readings[id].Ok? :: id
  }

  lemma NoneSurvive()
    ensures Surviving([]) == {}
  {
  }

  lemma SurvivingSnoc(readings: seq<Result<RepeatedDecode>>)
    requires readings != []
    ensures var n := |readings| - 1;
      Surviving(readings) == Surviving(readings[..n]) + (if readings[n].Ok? then {n} else {}) && n !in Surviving(readings[..n])
  {
  }

  /** One equation per surviving tile, with the tile's id. */
  lemma {:induction false} RecoveredIds(p: E.Profile, key: nat, readings: seq<Result<RepeatedDecode>>, eqs: seq<E.RatelessEquation>)
    requires p.keyBytes > 0 && Recovered(p, readings, eqs) && OwnOrLost(p, key, readings)
    ensures E.Ids(eqs) == Surviving(readings) && |eqs| == |Surviving(readings)|
  {
    hide OwnRecord, E.IsSparseMask, E.Ids, Surviving;
    if readings == [] {
      E.NoIds();
      NoneSurvive();
    } else {
      var n := |readings| - 1;
      var init := readings[..n];
      SurvivingSnoc(readings);
      if readings[n].Ok? {
        OwnIsValid(p, key, n, readings[n].value.record);
        RecoveredIds(p, key, init, eqs[..|eqs| - 1]);
        E.IdsSnoc(eqs[..|eqs| - 1], eqs[|eqs| - 1]);
        assert eqs == eqs[..|eqs| - 1] + [eqs[|eqs| - 1]];
      } else {
        RecoveredIds(p, key, init, eqs);
      }
    }
  }

  /**
    End to end: tiles embedded for a payload, then damaged in fewer than half of the copies of each
    record bit, or in any way that leaves the record, or until they no longer decode.  Extraction
    collects exactly the equations of the tiles that decode, all lightly damaged ones among them.
    When their rows have full rank it returns a well-formed payload with the pointer that was
    embedded, and no watermark otherwise.
    */
  lemma EndToEnd(p: E.Profile, payload: P.WatermarkPayload, sent: seq<Bits>, received: seq<Bits>, repetitions: int,
                 e: Extraction, eqs: seq<E.RatelessEquation>)
    requires p.keyBytes == 20 && payload.Valid() && payload.mode.Full160Rateless?
    requires Embedded(p, BytesToInt(payload.pointer), sent, repetitions)
    requires Damaged(sent, received, repetitions) && ExtractsTo(p, received, repetitions, e, eqs)
    ensures if LA.Rank(E.RowsOf(eqs)) == 160 then e.Extracted? && Locates(e.payload, payload.pointer) else e.NoWatermark?
    ensures E.Ids(eqs) == Surviving(ReadTiles(received, repetitions))
    ensures forall id :: 0 <= id < |sent| && Light(sent[id], received[id], repetitions) ==> id in E.Ids(eqs)
    ensures e.equationsRecovered == |Surviving(ReadTiles(received, repetitions))|
  {
    var key: Bytes := payload.pointer;
    assert |key| == 20;
    hide MajorityDecode, Light, Recovered, E.OnlySolution, Locates, LA.Rank, Embedded, BytesToInt, E.Ids, P.WatermarkPayload.Valid;
    var k, readings := BytesToInt(key), ReadTiles(received, repetitions);
    DamagedTiles(p, k, sent, received, repetitions);
    OwnOrLostIsGenuine(p, k, readings);
    RecoveredIds(p, k, readings, eqs);
    hide OwnOrLost, AllGenuine;
    assert ByRank(e, eqs, key);
  }

  datatype Carrier = Carrier(tileSize: nat, profile: E.Profile) {

    /** The checks made when the carrier and its FULL160 equation profile are built. */
    ghost predicate Valid() {
      tileSize > 0 && profile.keyBytes == 20 && profile.Valid()
    }

    function Capacity(): nat {
      tileSize * tileSize
    }

    // ----- tiles -----

    static function GridSize(columns: nat, rows: nat): nat {
      columns * rows
    }

    /** The number of complete tiles, cut off at the profile's last equation id. */
    function TileCount(width: nat, height: nat): (n: nat)
      requires tileSize > 0
      ensures n <= profile.maxEquationId + 1
    {
      var n := GridSize(width / tileSize, height / tileSize);
      if n <= profile.maxEquationId then n else profile.maxEquationId + 1
    }

    /** All complete tiles, or as many as there are equation ids if these are fewer. */
    lemma TilesCutOff(width: nat, height: nat)
      requires tileSize > 0
      ensures TileCount(width, height) <= (width / tileSize) * (height / tileSize)
      ensures TileCount(width, height) in {(width / tileSize) * (height / tileSize), profile.maxEquationId + 1}
    {
    }

    /** The tiles in one row. */
    function Columns(width: nat): (n: nat)
      requires 0 < tileSize <= width
      ensures n > 0
    {
      width / tileSize
    }

    function GridTile(id: nat, column: nat, row: nat): Tile {
      Tile(id, column * tileSize, row * tileSize)
    }

    /** The tile of an equation id: tiles are numbered along rows. */
    function TileOf(width: nat, id: nat): Tile
      requires 0 < tileSize <= width
    {
      GridTile(id, id % Columns(width), id / Columns(width))
    }

    predicate InBounds(t: Tile, width: nat, height: nat) {
      t.x0 + tileSize <= width && t.y0 + tileSize <= height
    }

    predicate Disjoint(s: Tile, t: Tile) {
      || s.x0 + tileSize <= t.x0 || t.x0 + tileSize <= s.x0
      || s.y0 + tileSize <= t.y0 || t.y0 + tileSize <= s.y0
    }

    predicate Covers(t: Tile, y: int, x: int) {
      t.y0 <= y < t.y0 + tileSize && t.x0 <= x < t.x0 + tileSize
    }

    /** Distinct grid positions are at least one tile apart. */
    lemma Apart(a: nat, b: nat)
      requires a < b
      ensures a * tileSize + tileSize <= b * tileSize
    {
      MulMonotone(tileSize, a + 1, b);
    }

    lemma TileInBounds(width: nat, height: nat, id: nat)
      requires tileSize > 0 && id < TileCount(width, height)
      ensures tileSize <= width && InBounds(TileOf(width, id), width, height)
    {
      var tx, ty := width / tileSize, height / tileSize;
      assert id < GridSize(tx, ty);
      InGrid(id, tx, ty);
      assert tileSize <= width;
      var column, row := id % tx, id / tx;
      assert TileOf(width, id) == GridTile(id, column, row);
      hide TileOf, TileCount;
      FitsIn(column, width);
      FitsIn(row, height);
    }

    static lemma InGrid(id: nat, columns: nat, rows: nat)
      requires id < GridSize(columns, rows)
      ensures columns > 0 && rows > 0 && id / columns < rows
    {
      assert columns > 0 && rows > 0;
      assert id == columns * (id / columns) + id % columns;
      if id / columns >= rows { MulMonotone(columns, rows, id / columns); }
    }

    /** A whole tile fits at every grid position below the number of whole tiles. */
    lemma FitsIn(a: nat, length: nat)
      requires tileSize > 0 && a < length / tileSize
      ensures a * tileSize + tileSize <= length
    {
      Apart(a, length / tileSize);
    }

    static lemma DivModDiffer(i: nat, j: nat, n: nat)
      requires n > 0 && i != j
      ensures i % n != j % n || i / n != j / n
    {
      assert i == n * (i / n) + i % n && j == n * (j / n) + j % n;
    }

    lemma GridDisjoint(i: nat, xi: nat, yi: nat, j: nat, xj: nat, yj: nat)
      requires xi != xj || yi != yj
      ensures Disjoint(GridTile(i, xi, yi), GridTile(j, xj, yj))
    {
      if xi < xj { Apart(xi, xj); }
      if xj < xi { Apart(xj, xi); }
      if yi < yj { Apart(yi, yj); }
      if yj < yi { Apart(yj, yi); }
    }

    lemma TilesDisjoint(width: nat, i: nat, j: nat)
      requires 0 < tileSize <= width && i != j
      ensures Disjoint(TileOf(width, i), TileOf(width, j))
    {
      var columns := Columns(width);
      var xi, yi, xj, yj := i % columns, i / columns, j % columns, j / columns;
      DivModDiffer(i, j, columns);
      assert TileOf(width, i) == GridTile(i, xi, yi) && TileOf(width, j) == GridTile(j, xj, yj);
      hide Disjoint, GridTile, Columns, TileOf;
      GridDisjoint(i, xi, yi, j, xj, yj);
    }

    lemma TileAt(width: nat, ty: nat, tx: nat)
      requires tileSize > 0 && tx < width / tileSize
      ensures tileSize <= width
      ensures TileOf(width, width / tileSize * ty + tx) == Tile(width / tileSize * ty + tx, tx * tileSize, ty * tileSize)
    {
      QuotientUnique(width / tileSize * ty + tx, width / tileSize, ty, tx);
    }

    /** The complete tiles of an image, in bounds and pairwise disjoint. */
    method TileCoords(width: nat, height: nat) returns (coords: seq<Tile>)
      requires tileSize > 0
      ensures |coords| == TileCount(width, height)
      ensures coords != [] ==> tileSize <= width
      ensures forall i :: 0 <= i < |coords| ==> coords[i] == TileOf(width, i)
      ensures forall i :: 0 <= i < |coords| ==> InBounds(coords[i], width, height)
      ensures forall i, j :: 0 <= i < j < |coords| ==> Disjoint(coords[i], coords[j])
    {
      hide TileOf, InBounds, Disjoint, TileCount;
      coords := CompleteTiles(width, height);
      forall i | 0 <= i < |coords| ensures InBounds(coords[i], width, height) {
        assert coords[i] == TileOf(width, i);
        TileInBounds(width, height, i);
      }
      forall i, j | 0 <= i < j < |coords| ensures Disjoint(coords[i], coords[j]) {
        assert coords[i] == TileOf(width, i) && coords[j] == TileOf(width, j);
        TilesDisjoint(width, i, j);
      }
    }

    method CompleteTiles(width: nat, height: nat) returns (coords: seq<Tile>)
      requires tileSize > 0
      ensures |coords| == TileCount(width, height)
      ensures coords != [] ==> tileSize <= width
      ensures forall i :: 0 <= i < |coords| ==> coords[i] == TileOf(width, i)
    {
      var tilesX, tilesY := width / tileSize, height / tileSize;
      ghost var all := GridSize(tilesX, tilesY);
      assert TileCount(width, height) == if all <= profile.maxEquationId then all else profile.maxEquationId + 1;
      hide TileOf, TileCount;
      coords := [];
      var eid := 0;
      for ty := 0 to tilesY
        invariant eid == |coords| == tilesX * ty <= profile.maxEquationId + 1
        invariant coords != [] ==> tileSize <= width
        invariant forall i :: 0 <= i < |coords| ==> coords[i] == TileOf(width, i)
      {
        ghost var row := tilesX * ty;
        MulMonotone(tilesX, ty + 1, tilesY);
        assert tilesX * (ty + 1) == row + tilesX <= all;
        for tx := 0 to tilesX
          invariant eid == |coords| == row + tx <= profile.maxEquationId + 1
          invariant coords != [] ==> tileSize <= width
        invariant forall i :: 0 <= i < |coords| ==> coords[i] == TileOf(width, i)
        {
          if eid > profile.maxEquationId {
            return;
          }
          TileAt(width, ty, tx);
          coords := coords + [Tile(eid, tx * tileSize, ty * tileSize)];
          eid := eid + 1;
        }
      }
    }

    // ----- the bits of a tile -----

    /** The pixel that holds carrier bit `i` of a tile: row by row. */
    function Cell(t: Tile, i: nat): (c: (nat, nat))
      requires tileSize > 0 && i < Capacity()
      ensures Covers(t, c.0, c.1)
    {
      CellInTile(i);
      (t.y0 + i / tileSize, t.x0 + i % tileSize)
    }

    lemma CellInTile(i: nat)
      requires tileSize > 0 && i < Capacity()
      ensures i / tileSize < tileSize
    {
      if i / tileSize >= tileSize { MulMonotone(tileSize, tileSize, i / tileSize); }
    }

    /** Row by row: the pixel in the given row and column of the tile. */
    lemma CellAt(t: Tile, row: nat, column: nat)
      requires row < tileSize && column < tileSize
      ensures row * tileSize + column < Capacity() && Cell(t, row * tileSize + column) == (t.y0 + row, t.x0 + column)
    {
      MulMonotone(tileSize, row + 1, tileSize);
      QuotientUnique(row * tileSize + column, tileSize, row, column);
    }

    lemma CellsDiffer(t: Tile, i: nat, j: nat)
      requires tileSize > 0 && i < Capacity() && j < Capacity() && i != j
      ensures Cell(t, i) != Cell(t, j)
    {
      assert i == tileSize * (i / tileSize) + i % tileSize && j == tileSize * (j / tileSize) + j % tileSize;
    }

    /** The alpha low bits of a tile. */
    function TileBits(arr: array2<Pixel>, t: Tile): (bits: Bits)
      requires tileSize > 0 && InBounds(t, arr.Length1, arr.Length0)
      reads arr
      ensures |bits| == Capacity()
      ensures forall i :: 0 <= i < Capacity() ==> bits[i] == arr[Cell(t, i).0, Cell(t, i).1].a % 2
    {
      seq(Capacity(), i requires 0 <= i < Capacity() reads arr => arr[Cell(t, i).0, Cell(t, i).1].a % 2)
    }

    static lemma AlphaValue(b: bit)
      ensures Or(254, b) == 254 + b
    {
      hide Or;
      OrHalf(254, b);
      OrZero(127);
      assert b as int / 2 == 0;
    }

    /** `254 | bit` */
    static function AlphaOf(b: bit): (a: byte)
      ensures a == 254 + b
    {
      AlphaValue(b);
      Or(254, b)
    }

    /** Write bits into a tile's alpha channel; the colours and all other pixels stay. */
    method WriteAlphaLsbBits(arr: array2<Pixel>, t: Tile, bits: Bits) returns (ok: bool)
      requires tileSize > 0 && InBounds(t, arr.Length1, arr.Length0)
      modifies arr
      ensures ok <==> |bits| <= Capacity()
      ensures ok ==> forall i :: (0 <= i < |bits| ==>
        arr[Cell(t, i).0, Cell(t, i).1] == old(arr[Cell(t, i).0, Cell(t, i).1]).(a := AlphaOf(bits[i])))
      ensures forall i :: ((ok ==> |bits| <= i) && 0 <= i < Capacity() ==>
        arr[Cell(t, i).0, Cell(t, i).1] == old(arr[Cell(t, i).0, Cell(t, i).1]))
      ensures forall y, x :: (0 <= y < arr.Length0 && 0 <= x < arr.Length1 && !Covers(t, y, x) ==>
        arr[y, x] == old(arr[y, x]))
      ensures forall y, x :: (0 <= y < arr.Length0 && 0 <= x < arr.Length1 ==>
        arr[y, x] == old(arr[y, x]).(a := arr[y, x].a))
    {
      hide Cell;
      if |bits| > Capacity() {
        return false;
      }
      for n := 0 to |bits|
        invariant forall i :: (0 <= i < n ==>
          arr[Cell(t, i).0, Cell(t, i).1] == old(arr[Cell(t, i).0, Cell(t, i).1]).(a := AlphaOf(bits[i])))
        invariant forall i :: (n <= i < Capacity() ==>
          arr[Cell(t, i).0, Cell(t, i).1] == old(arr[Cell(t, i).0, Cell(t, i).1]))
        invariant forall y, x :: (0 <= y < arr.Length0 && 0 <= x < arr.Length1 && !Covers(t, y, x) ==>
          arr[y, x] == old(arr[y, x]))
        invariant forall y, x :: (0 <= y < arr.Length0 && 0 <= x < arr.Length1 ==>
          arr[y, x] == old(arr[y, x]).(a := arr[y, x].a))
      {
        forall i | 0 <= i < Capacity() && i != n ensures Cell(t, i) != Cell(t, n) { CellsDiffer(t, i, n); }
        var (y, x) := Cell(t, n);
        arr[y, x] := arr[y, x].(a := AlphaOf(bits[n]));
      }
      ok := true;
    }

    /** Writing one tile of the grid leaves the bits of the others alone. */
    method WriteTile(arr: array2<Pixel>, coords: seq<Tile>, i: nat, bits: Bits) returns (ok: bool)
      requires tileSize > 0 && i < |coords|
      requires forall j :: 0 <= j < |coords| ==> InBounds(coords[j], arr.Length1, arr.Length0)
      requires forall j, k :: 0 <= j < k < |coords| ==> Disjoint(coords[j], coords[k])
      modifies arr
      ensures ok <==> |bits| <= Capacity()
      ensures ok ==> bits <= TileBits(arr, coords[i])
      ensures forall j :: 0 <= j < |coords| && j != i ==> TileBits(arr, coords[j]) == old(TileBits(arr, coords[j]))
      ensures forall y, x :: (0 <= y < arr.Length0 && 0 <= x < arr.Length1 ==>
        arr[y, x] == old(arr[y, x]).(a := arr[y, x].a))
    {
      hide Cell, Covers, InBounds, Disjoint, AlphaOf;
      ok := WriteAlphaLsbBits(arr, coords[i], bits);
      forall j | 0 <= j < |coords| && j != i ensures TileBits(arr, coords[j]) == old(TileBits(arr, coords[j])) {
        forall c | 0 <= c < Capacity() ensures TileBits(arr, coords[j])[c] == old(TileBits(arr, coords[j]))[c] {
          var (y, x) := Cell(coords[j], c);
          DisjointCells(coords[i], coords[j], y, x);
          CellInBounds(coords[j], c, arr.Length1, arr.Length0);
          assert arr[y, x] == old(arr[y, x]);
        }
      }
    }

    lemma CellInBounds(t: Tile, i: nat, width: nat, height: nat)
      requires tileSize > 0 && i < Capacity() && InBounds(t, width, height)
      ensures Cell(t, i).0 < height && Cell(t, i).1 < width
    {
    }

    lemma DisjointCells(s: Tile, t: Tile, y: int, x: int)
      requires (Disjoint(s, t) || Disjoint(t, s)) && Covers(t, y, x)
      ensures !Covers(s, y, x)
    {
    }

    // ----- embedding -----

    /** The alpha low bits of all tiles. */
    function Tiles(arr: array2<Pixel>): (tiles: seq<Bits>)
      requires tileSize > 0
      reads arr
      ensures |tiles| == TileCount(arr.Length1, arr.Length0)
    {
      seq(TileCount(arr.Length1, arr.Length0), i requires 0 <= i < TileCount(arr.Length1, arr.Length0) reads arr =>
        TileInBounds(arr.Length1, arr.Length0, i);
        TileBits(arr, TileOf(arr.Length1, i)))
    }

    /** The pointer of a FULL160_RATELESS payload is a key of the profile. */
    lemma PayloadKeyFits(payload: P.WatermarkPayload)
      requires profile.keyBytes == 20 && payload.Valid() && payload.mode.Full160Rateless?
      ensures BytesToInt(payload.pointer) < Pow2(profile.Width())
    {
      hide BytesToInt, Pow2;
      E.KeyFits(payload.pointer);
    }

    method Embed(arr: array2<Pixel>, payload: P.WatermarkPayload, repetitions: int) returns (ok: bool)
      requires Valid() && payload.Valid()
      modifies arr
      ensures ok <==> (0 < RECORD_BITS * repetitions <= Capacity() && payload.mode.Full160Rateless?
                       && 0 < TileCount(arr.Length1, arr.Length0) <= 0x1_0000)
      ensures ok ==> Embedded(profile, BytesToInt(payload.pointer), Tiles(arr), repetitions)
      ensures ok ==> Intact(profile, BytesToInt(payload.pointer), ReadTiles(Tiles(arr), repetitions))
      ensures forall y, x :: (0 <= y < arr.Length0 && 0 <= x < arr.Length1 ==>
        arr[y, x] == old(arr[y, x]).(a := arr[y, x].a))
    {
      hide TileBits, Cell, Covers, Disjoint, InBounds, TileOf, TileCount, TileRecord.ToBits, Copies, P.WatermarkPayload.Valid;
      if RECORD_BITS * repetitions > Capacity() || !payload.mode.Full160Rateless? {
        return false;
      }
      var coords := TileCoords(arr.Length1, arr.Length0);
      if coords == [] {
        return false;
      }
      var key := BytesToInt(payload.pointer);
      PayloadKeyFits(payload);
      hide BytesToInt, Pow2;
      ghost var records: seq<TileRecord> := [];
      for i := 0 to |coords|
        invariant |records| == i && (i > 0 ==> repetitions > 0) && i <= 0x1_0000
        invariant forall j :: 0 <= j < i ==> OwnRecord(profile, key, j, records[j])
        invariant forall j :: 0 <= j < i ==> Copies(records[j].ToBits(), repetitions) <= TileBits(arr, coords[j])
        invariant forall y, x :: (0 <= y < arr.Length0 && 0 <= x < arr.Length1 ==>
          arr[y, x] == old(arr[y, x]).(a := arr[y, x].a))
      {
        var eq := E.EquationForKey(profile, i, key, 1.0);
        var record := TileRecord(i, eq.value.rhs, 1, 0);
        if !record.Valid() {
          return false;
        }
        var bits := EncodeRepeated(record, repetitions);
        if bits.Err? {
          return false;
        }
        var written := WriteTile(arr, coords, i, bits.value);
        records := records + [record];
      }
      forall j | 0 <= j < |coords| ensures CarriesOwn(profile, key, j, Tiles(arr)[j], repetitions) {
        assert Tiles(arr)[j] == TileBits(arr, coords[j]);
        assert OwnRecord(profile, key, j, records[j]) && Copies(records[j].ToBits(), repetitions) <= Tiles(arr)[j];
      }
      EmbeddedIntact(profile, key, Tiles(arr), repetitions);
      ok := true;
    }

    // ----- extraction -----

    /** One equation per tile that decodes to a usable record, in tile order. */
    method ReadEquations(arr: array2<Pixel>, repetitions: int)
      returns (equations: seq<E.RatelessEquation>, failures: nat, tilesSeen: nat)
      requires Valid()
      ensures Recovered(profile, ReadTiles(Tiles(arr), repetitions), equations)
      ensures failures + |equations| == tilesSeen == TileCount(arr.Length1, arr.Length0)
    {
      hide TileBits, TileOf, TileCount, InBounds, Disjoint, MajorityDecode, TileRecord.Valid, E.IsSparseMask, Cell, Elected,
        DecodesElected, Dot, Pow2;
      ghost var readings := ReadTiles(Tiles(arr), repetitions);
      var coords := TileCoords(arr.Length1, arr.Length0);
      equations, failures, tilesSeen := [], 0, |coords|;
      for i := 0 to |coords|
        invariant Recovered(profile, readings[..i], equations) && failures + |equations| == i
      {
        assert readings[..i + 1][..i] == readings[..i];
        var decoded := MajorityDecodeRepeatedRecord(TileBits(arr, coords[i]), repetitions);
        assert Tiles(arr)[i] == TileBits(arr, coords[i]) && decoded == readings[i];
        if decoded.Err? {
          failures := failures + 1;
        } else {
          var record := decoded.value.record;
          DecodedValid(TileBits(arr, coords[i]), repetitions);
          var maskEq := E.EquationForKey(profile, record.equationId, 0, decoded.value.confidence);
          if maskEq.Err? {
            failures := failures + 1;
          } else {
            equations := equations + [E.RatelessEquation(record.equationId, maskEq.value.mask, record.rhs, decoded.value.confidence)];
          }
        }
      }
      assert readings[..|coords|] == readings;
    }

    /**
      Read every tile, collect the equations, solve.  Whatever the pixels, a key comes out exactly
      when it is the one solution of the recovered equations, in a well-formed payload; and when
      every record read states a true equation about `key`, the outcome is that key or nothing,
      by rank alone.
      */
    method Extract(arr: array2<Pixel>, repetitions: int) returns (e: Extraction, ghost eqs: seq<E.RatelessEquation>)
      requires Valid()
      ensures !e.Error? && e.tilesSeen == TileCount(arr.Length1, arr.Length0) == e.equationsRecovered + e.decodeFailures
      ensures forall key: Bytes :: |key| == 20 && AllGenuine(profile, BytesToInt(key), ReadTiles(Tiles(arr), repetitions)) ==>
        (e.Extracted? ==> e.payload.pointer == key)
      ensures ExtractsTo(profile, Tiles(arr), repetitions, e, eqs)
    {
      hide TileBits, TileCount, MajorityDecode, Genuine, LA.Rank, TileRecord.Valid, E.IsSparseMask, E.OnlySolution,
        E.Deduplicated, E.Recovers, E.Malformed, Locates, LocatorPayload, AllGenuine, E.AllHonest, Recovered, ReadTiles;
      ghost var readings := ReadTiles(Tiles(arr), repetitions);
      var equations, failures, tilesSeen := ReadEquations(arr, repetitions);
      eqs := equations;
      forall key: nat | AllGenuine(profile, key, readings) ensures E.AllHonest(profile, key, eqs) {
        GenuineReadings(profile, key, readings, eqs);
      }
      RecoveredRows(profile, readings, eqs);
      var result := E.SolveManifestKeyFromEquations(profile, equations);
      if result.Err? {
        return Error, eqs;
      }
      if result.value.recoveredKey.None? {
        e := NoWatermark(tilesSeen, |equations|, failures);
      } else {
        e := Extracted(LocatorPayload(result.value.recoveredKey.value), tilesSeen, |equations|, failures);
      }
    }
  }
}
