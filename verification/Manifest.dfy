/**
  The signed manifest and its codec: what is addressed is the canonical bytes, and decoding and
  encoding again keeps them.
  */
module Manifest {
  import opened Wrappers
  import opened Digits
  import opened Canonical
  import opened Hashes
  import opened Schema
  import opened FieldNames
  import opened Objects
  import R = Ranking
  import L = Lex

  // Every record lists its fields in the order of their names.  `Values` is what it is written as,
  // `Readings` how its fields read back.

  // ----- region commitments -----

  datatype Region = Region(regionId: Bytes, algId: Bytes, commitment: Bytes, metadata: seq<Entry>) {

    /** What the types of the fields guarantee: text may be empty. */
    ghost predicate Valid(utf8: Utf8) {
      utf8(regionId) && utf8(algId) && |commitment| == 32 && IsCanonical(utf8, Dict(metadata))
    }

    /** What the decoder demands. */
    predicate Sound() {
      regionId != [] && algId != []
    }

    function Values(): (v: seq<Value>)
      ensures |v| == 4
    {
      [Text(regionId), Text(algId), Blob(commitment), Dict(metadata)]
    }

    /** `to_canonical` */
    function Wire(): (v: Value) {
      Record(RegionNames(), Values())
    }
  }

  function RegionNames(): (n: seq<Name>)
    ensures |n| == 4
  {
    [REGION_ID, ALG_ID, COMMITMENT, METADATA]
  }

  lemma RegionNamesTell()
    ensures Telling(RegionNames())
  {
    var n := RegionNames();
    assert Tag(n[0]) == (9, 'r', 'd') && Tag(n[1]) == (6, 'a', 'd') && Tag(n[2]) == (10, 'c', 't') && Tag(n[3]) == (8, 'm', 'a');
    hide Tag, RegionNames;
  }

  function RegionFromPrimitive(v: Value): (r: Result<Region>) {
    if !v.Dict? then Err
    else
      var m := v.entries;
      var regionId :- RequireText(Named(m, REGION_ID));
      var algId :- RequireText(Named(m, ALG_ID));
      var commitment :- RequireDigest(Named(m, COMMITMENT));
      var metadata :- EntriesOr(Named(m, METADATA));
      Ok(Region(regionId, algId, commitment, metadata))
  }

  lemma RegionReads(utf8: Utf8, x: Region) returns (m: seq<Entry>)
    requires TakesAscii(utf8) && x.Valid(utf8)
    ensures ComesBack(utf8, x.Wire(), Dict(m))
    ensures Reads(m, REGION_ID, Text(x.regionId)) && Reads(m, ALG_ID, Text(x.algId))
    ensures Reads(m, COMMITMENT, Blob(x.commitment)) && Reads(m, METADATA, Dict(x.metadata))
  {
    var n, v := RegionNames(), x.Values();
    hide ComesBack, IsCanonical, Telling, Reads, Record, REGION_ID, ALG_ID, COMMITMENT, METADATA;
    RegionNamesTell();
    assert AllComeBack(utf8, v, v) by {
      LeafComesBack(utf8, Some(x.regionId), 0, true);
      LeafComesBack(utf8, Some(x.algId), 0, true);
      LeafComesBack(utf8, Some(x.commitment), 0, true);
      CanonicalComesBack(utf8, Dict(x.metadata));
      assert OptText(Some(x.regionId)) == v[0] && OptText(Some(x.algId)) == v[1] && OptBlob(Some(x.commitment)) == v[2];
    }
    m := RecordReads(utf8, n, v, v);
    assert Reads(m, n[0], v[0]) && Reads(m, n[1], v[1]) && Reads(m, n[2], v[2]) && Reads(m, n[3], v[3]);
  }

  /** A region commitment reads back as itself exactly when its two ids are not empty, and is refused otherwise. */
  lemma RegionRoundTrip(utf8: Utf8, x: Region)
    requires TakesAscii(utf8) && x.Valid(utf8)
    ensures IsPrimitive(utf8, x.Wire())
    ensures RegionFromPrimitive(Normalize(x.Wire())) == if x.Sound() then Ok(x) else Err
  {
    var m := RegionReads(utf8, x);
    hide Reads, Named, RequireText, RequireDigest, EntriesOr, Region.Wire, IsPrimitive, IsCanonical, REGION_ID, ALG_ID,
      COMMITMENT, METADATA;
    ReadsText(m, REGION_ID, x.regionId, []);
    ReadsText(m, ALG_ID, x.algId, []);
    ReadsBlob(m, COMMITMENT, x.commitment);
    ReadsDict(m, METADATA, x.metadata);
  }

  function RegionWires(xs: seq<Region>): (v: seq<Value>)
    ensures |v| == |xs| && forall i :: 0 <= i < |v| ==> v[i] == xs[i].Wire()
  {
    seq(|xs|, i requires 0 <= i < |xs| => xs[i].Wire())
  }

  predicate SoundRegions(xs: seq<Region>) {
    forall x <- xs :: x.Sound()
  }

  lemma RegionsRoundTrip(utf8: Utf8, xs: seq<Region>)
    requires TakesAscii(utf8) && forall x <- xs :: x.Valid(utf8)
    ensures ComesBack(utf8, Array(RegionWires(xs)), Array(NormalizeItems(RegionWires(xs))))
    ensures DecodeAll(RegionFromPrimitive, NormalizeItems(RegionWires(xs))) == if SoundRegions(xs) then Ok(xs) else Err
  {
    hide Region.Wire, Region.Valid, Region.Sound, RegionFromPrimitive, IsPrimitive, TakesAscii;
    var items := NormalizeItems(RegionWires(xs));
    forall i | 0 <= i < |xs|
      ensures ComesBack(utf8, RegionWires(xs)[i], items[i])
      ensures RegionFromPrimitive(items[i]) == if xs[i].Sound() then Ok(xs[i]) else Err
    {
      RegionRoundTrip(utf8, xs[i]);
    }
    ListComesBack(utf8, RegionWires(xs), items);
    if SoundRegions(xs) {
      AllDecode(RegionFromPrimitive, items, xs);
    } else {
      var i :| 0 <= i < |xs| && !xs[i].Sound();
      OneFails(RegionFromPrimitive, items, i);
    }
  }

  // ----- the artifact binding -----

  datatype Artifact = Artifact(
    mediaType: Bytes, essenceAlgId: Bytes, essenceHash: Bytes, hashAlg: Bytes, wmAlgId: Value,
    strictByteHash: Option<Bytes>, strictDecodeHash: Option<Bytes>, regions: seq<Region>)
  {
    ghost predicate Valid(utf8: Utf8) {
      && utf8(mediaType) && utf8(essenceAlgId) && |essenceHash| == 32 && utf8(hashAlg)
      && IsCanonical(utf8, wmAlgId) && OptDigestValid(strictByteHash) && OptDigestValid(strictDecodeHash)
      && forall x <- regions :: x.Valid(utf8)
    }

    predicate Sound() {
      mediaType != [] && essenceAlgId != [] && hashAlg != [] && SoundRegions(regions)
    }

    function Values(): (v: seq<Value>)
      ensures |v| == 8
    {
      [Text(mediaType), Text(essenceAlgId), Blob(essenceHash), Text(hashAlg), wmAlgId, OptBlob(strictByteHash),
       OptBlob(strictDecodeHash), Array(RegionWires(regions))]
    }

    function Readings(): (v: seq<Value>)
      ensures |v| == 8
    {
      [Text(mediaType), Text(essenceAlgId), Blob(essenceHash), Text(hashAlg), wmAlgId, OptBlob(strictByteHash),
       OptBlob(strictDecodeHash), Array(NormalizeItems(RegionWires(regions)))]
    }

    function Wire(): (v: Value) {
      Record(ArtifactNames(), Values())
    }

    /** The object that comes back: an empty container for a watermark id reads as none. */
    function Canon(): (x: Artifact) {
      this.(wmAlgId := Settled(wmAlgId))
    }
  }

  function ArtifactNames(): (n: seq<Name>)
    ensures |n| == 8
  {
    [MEDIA_TYPE, ESSENCE_ALG_ID, ESSENCE_HASH, HASH_ALG, WM_ALG_ID, STRICT_BYTE_HASH, STRICT_DECODE_HASH, REGION_COMMITMENTS]
  }

  lemma ArtifactNamesTell()
    ensures Telling(ArtifactNames())
  {
    var n := ArtifactNames();
    assert Tag(n[0]) == (10, 'm', 'e') && Tag(n[1]) == (14, 'e', 'd') && Tag(n[2]) == (12, 'e', 'h') && Tag(n[3]) == (8, 'h', 'g');
    assert Tag(n[4]) == (9, 'w', 'd') && Tag(n[5]) == (16, 's', 'h') && Tag(n[6]) == (18, 's', 'h') && Tag(n[7]) == (18, 'r', 's');
    hide Tag, ArtifactNames;
  }

  function ArtifactFromPrimitive(v: Value): (r: Result<Artifact>) {
    if !v.Dict? then Err
    else
      var m := v.entries;
      var items :- ItemsOr(Named(m, REGION_COMMITMENTS));
      var mediaType :- RequireText(Named(m, MEDIA_TYPE));
      var essenceAlgId :- RequireText(Named(m, ESSENCE_ALG_ID));
      var essenceHash :- RequireDigest(Named(m, ESSENCE_HASH));
      var hashAlg :- if Named(m, HASH_ALG).None? then Ok(Ascii("sha256")) else RequireText(Named(m, HASH_ALG));
      var byteHash :- OptDigest(Named(m, STRICT_BYTE_HASH));
      var decodeHash :- OptDigest(Named(m, STRICT_DECODE_HASH));
      var regions :- DecodeAll(RegionFromPrimitive, items);
      Ok(Artifact(mediaType, essenceAlgId, essenceHash, hashAlg, AnyOf(Named(m, WM_ALG_ID)), byteHash, decodeHash, regions))
  }

  lemma ArtifactComesBack(utf8: Utf8, x: Artifact)
    requires TakesAscii(utf8) && x.Valid(utf8)
    ensures AllComeBack(utf8, x.Values(), x.Readings())
  {
    hide ComesBack, IsCanonical, TakesAscii, Region.Valid, RegionWires, NormalizeItems, RegionFromPrimitive, DecodeAll;
    var v, w := x.Values(), x.Readings();
    assert ComesBack(utf8, v[0], w[0]) by { LeafComesBack(utf8, Some(x.mediaType), 0, true); }
    assert ComesBack(utf8, v[1], w[1]) by { LeafComesBack(utf8, Some(x.essenceAlgId), 0, true); }
    assert ComesBack(utf8, v[2], w[2]) by { LeafComesBack(utf8, Some(x.essenceHash), 0, true); }
    assert ComesBack(utf8, v[3], w[3]) by { LeafComesBack(utf8, Some(x.hashAlg), 0, true); }
    assert ComesBack(utf8, v[4], w[4]) by { CanonicalComesBack(utf8, x.wmAlgId); }
    assert ComesBack(utf8, v[5], w[5]) by { LeafComesBack(utf8, x.strictByteHash, 0, true); }
    assert ComesBack(utf8, v[6], w[6]) by { LeafComesBack(utf8, x.strictDecodeHash, 0, true); }
    assert ComesBack(utf8, v[7], w[7]) by { RegionsRoundTrip(utf8, x.regions); }
    hide Artifact.Values, Artifact.Readings;
  }

  lemma ArtifactReads(utf8: Utf8, x: Artifact) returns (m: seq<Entry>)
    requires TakesAscii(utf8) && x.Valid(utf8)
    ensures ComesBack(utf8, x.Wire(), Dict(m))
    ensures Reads(m, MEDIA_TYPE, Text(x.mediaType)) && Reads(m, ESSENCE_ALG_ID, Text(x.essenceAlgId))
    ensures Reads(m, ESSENCE_HASH, Blob(x.essenceHash)) && Reads(m, HASH_ALG, Text(x.hashAlg)) && Reads(m, WM_ALG_ID, x.wmAlgId)
    ensures Reads(m, STRICT_BYTE_HASH, OptBlob(x.strictByteHash)) && Reads(m, STRICT_DECODE_HASH, OptBlob(x.strictDecodeHash))
    ensures Reads(m, REGION_COMMITMENTS, Array(NormalizeItems(RegionWires(x.regions))))
  {
    hide Telling, Reads, Record, ComesBack, Artifact.Valid, MEDIA_TYPE, ESSENCE_ALG_ID, ESSENCE_HASH, HASH_ALG, WM_ALG_ID,
      STRICT_BYTE_HASH, STRICT_DECODE_HASH, REGION_COMMITMENTS, RegionWires, NormalizeItems;
    ArtifactNamesTell();
    ArtifactComesBack(utf8, x);
    var n, v := ArtifactNames(), x.Readings();
    m := RecordReads(utf8, n, x.Values(), v);
    assert Reads(m, n[0], v[0]) && Reads(m, n[1], v[1]) && Reads(m, n[2], v[2]) && Reads(m, n[3], v[3]);
    assert Reads(m, n[4], v[4]) && Reads(m, n[5], v[5]) && Reads(m, n[6], v[6]) && Reads(m, n[7], v[7]);
  }

  /** An artifact binding reads back, up to an empty watermark id, exactly when it is sound. */
  lemma ArtifactRoundTrip(utf8: Utf8, x: Artifact)
    requires TakesAscii(utf8) && x.Valid(utf8)
    ensures IsPrimitive(utf8, x.Wire()) && !Absent(Normalize(x.Wire()))
    ensures ArtifactFromPrimitive(Normalize(x.Wire())) == if x.Sound() then Ok(x.Canon()) else Err
  {
    var m := ArtifactReads(utf8, x);
    ReadsNotEmpty(m, MEDIA_TYPE, Text(x.mediaType));
    hide ArtifactFromPrimitive, Artifact.Canon, Reads, Named, RequireText, RequireDigest, OptDigest, ItemsOr, AnyOf,
      Settled, DecodeAll, Artifact.Wire, IsPrimitive, IsCanonical, Region.Valid, RegionWires, NormalizeItems, Ascii,
      MEDIA_TYPE, ESSENCE_ALG_ID, ESSENCE_HASH, HASH_ALG, WM_ALG_ID, STRICT_BYTE_HASH, STRICT_DECODE_HASH, REGION_COMMITMENTS;
    assert RequireText(Named(m, MEDIA_TYPE)) == NonEmpty(x.mediaType) by { ReadsText(m, MEDIA_TYPE, x.mediaType, []); }
    assert RequireText(Named(m, ESSENCE_ALG_ID)) == NonEmpty(x.essenceAlgId) by { ReadsText(m, ESSENCE_ALG_ID, x.essenceAlgId, []); }
    assert RequireDigest(Named(m, ESSENCE_HASH)) == Ok(x.essenceHash) by { ReadsBlob(m, ESSENCE_HASH, x.essenceHash); }
    assert RequireText(Named(m, HASH_ALG)) == NonEmpty(x.hashAlg) && Named(m, HASH_ALG).Some? by { ReadsText(m, HASH_ALG, x.hashAlg, []); }
    assert AnyOf(Named(m, WM_ALG_ID)) == Settled(x.wmAlgId) by { ReadsAny(m, WM_ALG_ID, x.wmAlgId); }
    assert OptDigest(Named(m, STRICT_BYTE_HASH)) == Ok(x.strictByteHash) by { ReadsOptBlob(m, STRICT_BYTE_HASH, x.strictByteHash); }
    assert OptDigest(Named(m, STRICT_DECODE_HASH)) == Ok(x.strictDecodeHash) by {
      ReadsOptBlob(m, STRICT_DECODE_HASH, x.strictDecodeHash);
    }
    var items := NormalizeItems(RegionWires(x.regions));
    assert ItemsOr(Named(m, REGION_COMMITMENTS)) == Ok(items) by { ReadsArray(m, REGION_COMMITMENTS, items); }
    assert DecodeAll(RegionFromPrimitive, items) == (if SoundRegions(x.regions) then Ok(x.regions) else Err) by { RegionsRoundTrip(utf8, x.regions); }
    ArtifactFromFields(m, x, items);
  }

  lemma ArtifactFromFields(m: seq<Entry>, x: Artifact, items: seq<Value>)
    requires RequireText(Named(m, MEDIA_TYPE)) == NonEmpty(x.mediaType)
    requires RequireText(Named(m, ESSENCE_ALG_ID)) == NonEmpty(x.essenceAlgId)
    requires RequireDigest(Named(m, ESSENCE_HASH)) == Ok(x.essenceHash)
    requires Named(m, HASH_ALG).Some? && RequireText(Named(m, HASH_ALG)) == NonEmpty(x.hashAlg)
    requires AnyOf(Named(m, WM_ALG_ID)) == Settled(x.wmAlgId) && OptDigest(Named(m, STRICT_BYTE_HASH)) == Ok(x.strictByteHash)
    requires OptDigest(Named(m, STRICT_DECODE_HASH)) == Ok(x.strictDecodeHash)
    requires ItemsOr(Named(m, REGION_COMMITMENTS)) == Ok(items)
    requires DecodeAll(RegionFromPrimitive, items) == if SoundRegions(x.regions) then Ok(x.regions) else Err
    ensures ArtifactFromPrimitive(Dict(m)) == if x.Sound() then Ok(x.Canon()) else Err
  {
    hide Named, RequireText, RequireDigest, OptDigest, ItemsOr, AnyOf, Settled, DecodeAll, SoundRegions, Ascii, MEDIA_TYPE,
      ESSENCE_ALG_ID, ESSENCE_HASH, HASH_ALG, WM_ALG_ID, STRICT_BYTE_HASH, STRICT_DECODE_HASH, REGION_COMMITMENTS;
  }

  lemma SettledAlike(v: Value)
    ensures Alike(Settled(v), v)
    ensures Encode(v).Ok? ==> Encode(Settled(v)).Ok?
  {
  }

  lemma SettledCanonical(utf8: Utf8, v: Value)
    requires IsCanonical(utf8, v)
    ensures IsCanonical(utf8, Settled(v))
  {
  }

  /** What comes back is written as before. */
  lemma ArtifactSame(x: Artifact)
    ensures Normalize(x.Canon().Wire()) == Normalize(x.Wire())
    ensures Encode(x.Wire()).Ok? ==> Encode(x.Canon().Wire()).Ok?
  {
    hide Record, Normalize, Encode, RegionWires, Settled, Absent, Telling, Artifact.Values;
    var v, w := x.Canon().Values(), x.Values();
    ArtifactNamesTell();
    SettledAlike(x.wmAlgId);
    CanonFields(x);
    forall i | 0 <= i < 8 ensures Alike(v[i], w[i]) {}
    SameRecord(ArtifactNames(), v, w);
    RecordEncodes(ArtifactNames(), v);
    RecordEncodes(ArtifactNames(), w);
  }

  lemma CanonFields(x: Artifact)
    ensures x.Canon().Values()[4] == Settled(x.wmAlgId) && x.Values()[4] == x.wmAlgId
    ensures forall i :: 0 <= i < 8 && i != 4 ==> x.Canon().Values()[i] == x.Values()[i]
  {
    hide RegionWires, Settled;
  }

  // ----- claims -----

  /** A claim's body holds any Python objects. */
  datatype Claim = Claim(kind: Bytes, body: seq<Item>) {

    /** The constructor refuses a body that has its own `type`. */
    ghost predicate Valid(utf8: Utf8) {
      && Required(utf8, kind) && IsPrimitive(utf8, Dict(ToEntries(body)))
      && forall e <- body :: e.name != Ascii(TYPE)
    }

    /** No entry is kept by the drop and yet absent on the wire. */
    predicate Plain() {
      forall e <- body :: !Masked(e.content)
    }

    /** What the body is written as: dropped first, converted then. */
    function Kept(): (m: seq<Entry>) {
      ToEntries(DropNothing(body))
    }

    function Wire(): (v: Value) {
      Dict([Entry(Ascii(TYPE), Text(kind))] + Kept())
    }

    /** The object that comes back. */
    function Canon(): (x: Claim) {
      Claim(kind, FromEntries(Read(Kept())))
    }
  }

  /** Pop the type; what is left is the body. */
  function ClaimFromPrimitive(v: Value): (r: Result<Claim>) {
    if !v.Dict? then Err
    else
      var kind :- RequireText(Named(v.entries, TYPE));
      Ok(Claim(kind, FromEntries(Without(v.entries, Ascii(TYPE)))))
  }

  predicate DistinctItems(body: seq<Item>) {
    forall i, j :: 0 <= i < j < |body| ==> body[i].name != body[j].name
  }

  lemma {:induction false} DropNothingDistinct(body: seq<Item>)
    requires DistinctItems(body)
    ensures DistinctItems(DropNothing(body))
  {
    hide IsNothing;
    if body != [] {
      DropNothingDistinct(body[1..]);
      var rest := DropNothing(body[1..]);
      forall i | 0 <= i < |rest| ensures rest[i].name != body[0].name {
        assert rest[i] in body[1..];
        var j :| 0 <= j < |body[1..]| && body[1..][j] == rest[i];
        assert body[j + 1] == rest[i];
      }
    }
  }

  /** The entries that are kept are entries of the body. */
  lemma KeptFrom(x: Claim)
    ensures forall e <- x.Kept() :: e in ToEntries(x.body) && exists d <- x.body :: d.name == e.name
  {
    hide IsNothing, ToPrimitive;
    var all, kept := ToEntries(x.body), x.Kept();
    forall e | e in kept ensures e in all && exists d <- x.body :: d.name == e.name {
      var i :| 0 <= i < |kept| && kept[i] == e;
      assert DropNothing(x.body)[i] in x.body;
      var j :| 0 <= j < |x.body| && x.body[j] == DropNothing(x.body)[i];
      assert all[j] == e;
    }
  }

  lemma KeptDistinct(x: Claim)
    requires Distinct(ToEntries(x.body))
    ensures Distinct(x.Kept())
  {
    hide IsNothing, ToPrimitive;
    forall i, j | 0 <= i < j < |x.body| ensures x.body[i].name != x.body[j].name {
      assert ToEntries(x.body)[i].name != ToEntries(x.body)[j].name;
    }
    DropNothingDistinct(x.body);
  }

  lemma ClaimKept(utf8: Utf8, x: Claim)
    requires TakesAscii(utf8) && x.Valid(utf8)
    ensures IsPrimitive(utf8, Dict(x.Kept())) && IsPrimitive(utf8, x.Wire())
    ensures forall e <- x.Kept() :: e.name != Ascii(TYPE)
  {
    var kept, t := x.Kept(), Entry(Ascii(TYPE), Text(x.kind));
    assert |Ascii(TYPE)| == 4;
    hide TYPE, Ascii, IsPrimitive, ToEntries, DropNothing, Claim.Kept;
    assert IsPrimitive(utf8, Text(x.kind)) by { LeafComesBack(utf8, Some(x.kind), 0, true); }
    assert Distinct(kept) by {
      PrimitiveDistinct(utf8, Dict(ToEntries(x.body)));
      KeptDistinct(x);
    }
    assert forall e <- kept :: e.name != Ascii(TYPE) by { KeptFrom(x); }
    assert forall e <- kept :: utf8(e.name) && |e.name| < U64_LIMIT && IsPrimitive(utf8, e.value) by {
      KeptFrom(x);
      PrimitiveEntries(utf8, ToEntries(x.body));
    }
    PrimitiveDict(utf8, kept);
    PrimitiveCons(utf8, t, kept);
  }

  lemma PrimitiveCons(utf8: Utf8, t: Entry, m: seq<Entry>)
    requires utf8(t.name) && |t.name| < U64_LIMIT && IsPrimitive(utf8, t.value) && IsPrimitive(utf8, Dict(m))
    requires forall e <- m :: e.name != t.name
    ensures IsPrimitive(utf8, Dict([t] + m))
  {
    PrimitiveDistinct(utf8, Dict(m));
    PrimitiveEntries(utf8, m);
    hide IsPrimitive;
    PrimitiveDict(utf8, [t] + m);
  }

  lemma PrimitiveEntries(utf8: Utf8, m: seq<Entry>)
    requires IsPrimitive(utf8, Dict(m))
    ensures forall e <- m :: utf8(e.name) && |e.name| < U64_LIMIT && IsPrimitive(utf8, e.value)
  {
  }

  /** What a claim comes back as: its type and, without it, its body. */
  lemma ClaimReads(utf8: Utf8, x: Claim) returns (m: seq<Entry>)
    requires TakesAscii(utf8) && x.Valid(utf8)
    ensures ComesBack(utf8, x.Wire(), Dict(m)) && AscendingNames(m) && |m| == 1 + |x.Kept()|
    ensures forall e :: e in m <==> e == Entry(Ascii(TYPE), Text(x.kind)) || e in Read(x.Kept())
    ensures Named(m, TYPE) == Some(Text(x.kind)) && Without(m, Ascii(TYPE)) == Read(x.Kept())
  {
    hide TYPE, Ascii, TakesAscii, Claim.Valid, AscendingNames, IsPrimitive, Normalize, Claim.Kept;
    var kept, t := x.Kept(), Entry(Ascii(TYPE), Text(x.kind));
    ClaimKept(utf8, x);
    m := Read([t] + kept);
    NormalMembers(utf8, [t] + kept);
    NormalMembers(utf8, kept);
    assert Normalize(Text(x.kind)) == Text(x.kind) by { LeafComesBack(utf8, Some(x.kind), 0, true); TextIsNormal(x.kind); }
    assert t in [t] + kept;
    FieldReads(utf8, [t] + kept, t);
    forall e ensures e in m <==> e == t || e in Read(kept) {
      if e in m {
        var d :| d in [t] + kept && e == Entry(d.name, Normalize(d.value));
        if d != t { assert d in kept; }
      }
      if e in Read(kept) {
        var d :| d in kept && e == Entry(d.name, Normalize(d.value));
        assert d in [t] + kept;
      }
    }
    forall e | e in Read(kept) ensures e.name != Ascii(TYPE) {
      var d :| d in kept && e == Entry(d.name, Normalize(d.value));
    }
    WithoutAscending(m, Ascii(TYPE));
    AscendingSame(Without(m, Ascii(TYPE)), Read(kept));
  }

  lemma TextIsNormal(t: Bytes)
    ensures Normalize(Text(t)) == Text(t)
  {
  }

  lemma ClaimRoundTrip(utf8: Utf8, x: Claim)
    requires TakesAscii(utf8) && x.Valid(utf8)
    ensures IsPrimitive(utf8, x.Wire())
    ensures ClaimFromPrimitive(Normalize(x.Wire())) == Ok(x.Canon())
  {
    hide TYPE, Ascii, TakesAscii, IsPrimitive, Normalize, Claim.Kept, Claim.Wire, Read, Without;
    var m := ClaimReads(utf8, x);
  }

  /** The body that comes back is valid, and what is absent in it is dropped when it is written again. */
  lemma ClaimCanon(utf8: Utf8, x: Claim)
    requires TakesAscii(utf8) && x.Valid(utf8)
    ensures x.Canon().Valid(utf8) && x.Canon().kind == x.kind && x.Canon().Kept() == DropAbsent(Read(x.Kept()))
    ensures Read(DropAbsent(Read(x.Kept()))) == DropAbsent(Read(x.Kept()))
  {
    hide TYPE, Ascii, TakesAscii, AscendingNames, IsPrimitive, IsCanonical, Normalize, Claim.Kept, Read, DropAbsent;
    var kept := x.Kept();
    ClaimKept(utf8, x);
    ReadsCanonical(utf8, kept);
    EntriesConvert(Read(kept));
    NormalMembers(utf8, kept);
    forall e | e in FromEntries(Read(kept)) ensures e.name != Ascii(TYPE) {
      var i :| 0 <= i < |Read(kept)| && FromEntries(Read(kept))[i] == e;
      assert Read(kept)[i] in Read(kept);
    }
    CanonKept(x);
  }

  lemma CanonKept(x: Claim)
    ensures x.Canon().Kept() == DropAbsent(Read(x.Kept()))
  {
    hide Read;
    DropDecoded(Read(x.Kept()));
    hide DropNothing, ToEntries, FromEntries, DropAbsent;
  }

  /** Entries that come back are canonical, also without the absent ones. */
  lemma ReadsCanonical(utf8: Utf8, m: seq<Entry>)
    requires IsPrimitive(utf8, Dict(m))
    ensures IsPrimitive(utf8, Dict(Read(m))) && Read(DropAbsent(Read(m))) == DropAbsent(Read(m))
  {
    hide IsPrimitive, Normalize, AscendingNames, Absent;
    NormalizeIsCanonical(utf8, Dict(m));
    NormalMembers(utf8, m);
    CanonicalIsNormal(utf8, Dict(Read(m)));
    DropAscending(Read(m));
    CanonicalIsNormal(utf8, Dict(DropAbsent(Read(m))));
  }

  /** A claim that comes back is written as before exactly when no entry was masked. */
  lemma ClaimSame(utf8: Utf8, x: Claim)
    requires TakesAscii(utf8) && x.Valid(utf8)
    ensures Normalize(x.Canon().Wire()) == Normalize(x.Wire()) <==> x.Plain()
  {
    hide TYPE, Ascii, TakesAscii, Claim.Valid, AscendingNames, IsPrimitive, IsCanonical, Normalize, Claim.Kept, Read,
      DropAbsent, Claim.Wire, Claim.Canon, Claim.Plain, Without, Named;
    ClaimCanon(utf8, x);
    var m := ClaimReads(utf8, x);
    var n := ClaimReads(utf8, x.Canon());
    NothingDropped(Read(x.Kept()));
    PlainKept(utf8, x);
    if DropAbsent(Read(x.Kept())) == Read(x.Kept()) { AscendingSame(m, n); }
  }

  lemma PlainKept(utf8: Utf8, x: Claim)
    requires TakesAscii(utf8) && x.Valid(utf8)
    ensures x.Plain() <==> forall e <- Read(x.Kept()) :: !Absent(e.value)
  {
    hide TYPE, Ascii, TakesAscii, Claim.Valid, IsPrimitive, Normalize, Absent, AscendingNames, Read, Claim.Kept, Claim.Plain;
    ClaimKept(utf8, x);
    var kept := x.Kept();
    NormalMembers(utf8, kept);
    forall e | e in kept ensures Absent(Normalize(e.value)) <==> Absent(e.value) { AbsentNormal(e.value); }
    MaskedKept(x);
    if !x.Plain() {
      var e :| e in kept && Absent(e.value);
      assert Entry(e.name, Normalize(e.value)) in Read(kept);
    }
  }

  lemma MaskedKept(x: Claim)
    ensures x.Plain() <==> forall e <- x.Kept() :: !Absent(e.value)
  {
    hide Absent, IsNothing, Masked, ToPrimitive;
    var kept, body := x.Kept(), DropNothing(x.body);
    forall i | 0 <= i < |body| ensures Masked(body[i].content) <==> Absent(kept[i].value) {
      assert body[i] in body;
      MaskedIff(body[i].content);
    }
    if x.Plain() {
      forall e | e in kept ensures !Absent(e.value) {
        var i :| 0 <= i < |kept| && kept[i] == e;
        assert body[i] in x.body;
      }
    } else {
      var e :| e in x.body && Masked(e.content);
      MaskedIff(e.content);
      assert e in body;
      var i :| 0 <= i < |body| && body[i] == e;
      assert kept[i] in kept;
    }
  }

  lemma ClaimEncodes(utf8: Utf8, x: Claim)
    requires TakesAscii(utf8) && x.Valid(utf8) && Encode(x.Wire()).Ok?
    ensures Encode(x.Canon().Wire()).Ok?
  {
    hide TYPE, Ascii, TakesAscii, Claim.Valid, AscendingNames, IsPrimitive, Normalize, Claim.Kept, Read, DropAbsent, Encode,
      Without, Named;
    ClaimCanon(utf8, x);
    var m := ClaimReads(utf8, x);
    EncodeNormalize(utf8, x.Wire());
    DictEncodes(m);
    var kept := DropAbsent(Read(x.Kept()));
    var w := [Entry(Ascii(TYPE), Text(x.kind))] + kept;
    ClaimKept(utf8, x);
    NormalMembers(utf8, x.Kept());
    NothingDropped(Read(x.Kept()));
    forall i | 0 <= i < |w| ensures EntryEncodes(w[i]) {
      if i > 0 { assert w[i] == kept[i - 1] && kept[i - 1] in Read(x.Kept()); }
      assert w[i] in m;
    }
    DictEncodes(w);
  }

  function ClaimWires(xs: seq<Claim>): (v: seq<Value>)
    ensures |v| == |xs| && forall i :: 0 <= i < |v| ==> v[i] == xs[i].Wire()
  {
    seq(|xs|, i requires 0 <= i < |xs| => xs[i].Wire())
  }

  function CanonClaims(xs: seq<Claim>): (v: seq<Claim>)
    ensures |v| == |xs| && forall i :: 0 <= i < |v| ==> v[i] == xs[i].Canon()
  {
    seq(|xs|, i requires 0 <= i < |xs| => xs[i].Canon())
  }

  lemma ClaimsRoundTrip(utf8: Utf8, xs: seq<Claim>)
    requires TakesAscii(utf8) && forall x <- xs :: x.Valid(utf8)
    ensures ComesBack(utf8, Array(ClaimWires(xs)), Array(NormalizeItems(ClaimWires(xs))))
    ensures DecodeAll(ClaimFromPrimitive, NormalizeItems(ClaimWires(xs))) == Ok(CanonClaims(xs))
  {
    hide Claim.Wire, Claim.Valid, Claim.Canon, ClaimFromPrimitive, IsPrimitive, TakesAscii;
    var items := NormalizeItems(ClaimWires(xs));
    forall i | 0 <= i < |xs|
      ensures ComesBack(utf8, ClaimWires(xs)[i], items[i]) && ClaimFromPrimitive(items[i]) == Ok(xs[i].Canon())
    {
      ClaimRoundTrip(utf8, xs[i]);
    }
    ListComesBack(utf8, ClaimWires(xs), items);
    AllDecode(ClaimFromPrimitive, items, CanonClaims(xs));
  }

  predicate AllPlain(xs: seq<Claim>) {
    forall x <- xs :: x.Plain()
  }

  lemma ClaimsSame(utf8: Utf8, xs: seq<Claim>)
    requires TakesAscii(utf8) && forall x <- xs :: x.Valid(utf8)
    ensures forall x <- CanonClaims(xs) :: x.Valid(utf8)
    ensures NormalizeItems(ClaimWires(CanonClaims(xs))) == NormalizeItems(ClaimWires(xs)) <==> AllPlain(xs)
    ensures AllEncoded(ClaimWires(xs)) ==> AllEncoded(ClaimWires(CanonClaims(xs)))
  {
    hide Claim.Wire, Claim.Valid, Claim.Canon, Claim.Plain, TakesAscii, Normalize, Encode;
    var ys := CanonClaims(xs);
    var a, b := NormalizeItems(ClaimWires(ys)), NormalizeItems(ClaimWires(xs));
    forall i | 0 <= i < |xs|
      ensures ys[i].Valid(utf8) && (a[i] == b[i] <==> xs[i].Plain())
      ensures Encode(ClaimWires(xs)[i]).Ok? ==> Encode(ClaimWires(ys)[i]).Ok?
    {
      ClaimCanon(utf8, xs[i]);
      ClaimSame(utf8, xs[i]);
      if Encode(xs[i].Wire()).Ok? { ClaimEncodes(utf8, xs[i]); }
    }
    if !AllPlain(xs) {
      var i :| 0 <= i < |xs| && !xs[i].Plain();
      assert a[i] != b[i];
    }
  }

  // ----- signatures -----

  datatype Signature = Signature(
    kid: Bytes, alg: Bytes, sig: Bytes, role: Bytes, signedAt: Option<Bytes>, chain: seq<Bytes>, metadata: seq<Entry>)
  {
    ghost predicate Valid(utf8: Utf8) {
      && Required(utf8, kid) && utf8(alg) && utf8(role)
      && (signedAt.Some? ==> utf8(signedAt.value)) && IsCanonical(utf8, Dict(metadata))
    }

    predicate Sound() {
      alg != [] && role != []
    }

    function Values(): (v: seq<Value>)
      ensures |v| == 7
    {
      [Text(kid), Text(alg), Blob(sig), Text(role), OptText(signedAt), Array(Blobs(chain)), Dict(metadata)]
    }

    function Wire(): (v: Value) {
      Record(SignatureNames(), Values())
    }
  }

  function SignatureNames(): (n: seq<Name>)
    ensures |n| == 7
  {
    [KID, ALG, SIG, ROLE, SIGNED_AT, CERTIFICATE_CHAIN, METADATA]
  }

  lemma SignatureNamesTell()
    ensures Telling(SignatureNames())
  {
    var n := SignatureNames();
    assert Tag(n[0]) == (3, 'k', 'd') && Tag(n[1]) == (3, 'a', 'g') && Tag(n[2]) == (3, 's', 'g') && Tag(n[3]) == (4, 'r', 'e');
    assert Tag(n[4]) == (9, 's', 't') && Tag(n[5]) == (17, 'c', 'n') && Tag(n[6]) == (8, 'm', 'a');
    hide Tag, SignatureNames;
  }

  function Blobs(chain: seq<Bytes>): (v: seq<Value>)
    ensures |v| == |chain| && forall i :: 0 <= i < |v| ==> v[i] == Blob(chain[i])
  {
    seq(|chain|, i requires 0 <= i < |chain| => Blob(chain[i]))
  }

  function BlobFrom(v: Value): (b: Result<Bytes>) {
    RequireBlob(Some(v))
  }

  function SignatureFromPrimitive(v: Value): (r: Result<Signature>) {
    if !v.Dict? then Err
    else
      var m := v.entries;
      var items :- ItemsOr(Named(m, CERTIFICATE_CHAIN));
      var kid :- RequireText(Named(m, KID));
      var alg :- RequireText(Named(m, ALG));
      var sig :- RequireBlob(Named(m, SIG));
      var role :- RequireText(Named(m, ROLE));
      var signedAt :- OptTextOf(Named(m, SIGNED_AT));
      var chain :- DecodeAll(BlobFrom, items);
      var metadata :- EntriesOr(Named(m, METADATA));
      Ok(Signature(kid, alg, sig, role, signedAt, chain, metadata))
  }

  lemma ChainRoundTrip(utf8: Utf8, chain: seq<Bytes>)
    ensures ComesBack(utf8, Array(Blobs(chain)), Array(Blobs(chain)))
    ensures DecodeAll(BlobFrom, Blobs(chain)) == Ok(chain)
  {
    forall i | 0 <= i < |chain| ensures ComesBack(utf8, Blobs(chain)[i], Blobs(chain)[i]) {
      LeafComesBack(utf8, Some(chain[i]), 0, true);
    }
    ListComesBack(utf8, Blobs(chain), Blobs(chain));
    AllDecode(BlobFrom, Blobs(chain), chain);
  }

  lemma SignatureComesBack(utf8: Utf8, x: Signature)
    requires TakesAscii(utf8) && x.Valid(utf8)
    ensures AllComeBack(utf8, x.Values(), x.Values())
  {
    hide ComesBack, IsCanonical, TakesAscii, Blobs;
    var v := x.Values();
    assert ComesBack(utf8, v[0], v[0]) by { LeafComesBack(utf8, Some(x.kid), 0, true); }
    assert ComesBack(utf8, v[1], v[1]) by { LeafComesBack(utf8, Some(x.alg), 0, true); }
    assert ComesBack(utf8, v[2], v[2]) by { LeafComesBack(utf8, Some(x.sig), 0, true); }
    assert ComesBack(utf8, v[3], v[3]) by { LeafComesBack(utf8, Some(x.role), 0, true); }
    assert ComesBack(utf8, v[4], v[4]) by { LeafComesBack(utf8, x.signedAt, 0, true); }
    assert ComesBack(utf8, v[5], v[5]) by { ChainRoundTrip(utf8, x.chain); }
    assert ComesBack(utf8, v[6], v[6]) by { CanonicalComesBack(utf8, Dict(x.metadata)); }
    hide Signature.Values;
  }

  lemma SignatureReads(utf8: Utf8, x: Signature) returns (m: seq<Entry>)
    requires TakesAscii(utf8) && x.Valid(utf8)
    ensures ComesBack(utf8, x.Wire(), Dict(m))
    ensures Reads(m, KID, Text(x.kid)) && Reads(m, ALG, Text(x.alg)) && Reads(m, SIG, Blob(x.sig)) && Reads(m, ROLE, Text(x.role))
    ensures Reads(m, SIGNED_AT, OptText(x.signedAt)) && Reads(m, CERTIFICATE_CHAIN, Array(Blobs(x.chain)))
    ensures Reads(m, METADATA, Dict(x.metadata))
  {
    hide Telling, Reads, Record, ComesBack, Signature.Valid, KID, ALG, SIG, ROLE, SIGNED_AT, CERTIFICATE_CHAIN, METADATA, Blobs;
    SignatureNamesTell();
    SignatureComesBack(utf8, x);
    var n, v := SignatureNames(), x.Values();
    m := RecordReads(utf8, n, v, v);
    assert Reads(m, n[0], v[0]) && Reads(m, n[1], v[1]) && Reads(m, n[2], v[2]) && Reads(m, n[3], v[3]);
    assert Reads(m, n[4], v[4]) && Reads(m, n[5], v[5]) && Reads(m, n[6], v[6]);
  }

  /** A signature record reads back as itself exactly when algorithm and role are not empty, and is refused otherwise. */
  lemma SignatureRoundTrip(utf8: Utf8, x: Signature)
    requires TakesAscii(utf8) && x.Valid(utf8)
    ensures IsPrimitive(utf8, x.Wire())
    ensures SignatureFromPrimitive(Normalize(x.Wire())) == if x.Sound() then Ok(x) else Err
  {
    var m := SignatureReads(utf8, x);
    hide Reads, Named, RequireText, RequireBlob, OptTextOf, ItemsOr, EntriesOr, DecodeAll, Signature.Wire, IsPrimitive,
      IsCanonical, Blobs, KID, ALG, SIG, ROLE, SIGNED_AT, CERTIFICATE_CHAIN, METADATA;
    assert RequireText(Named(m, KID)) == Ok(x.kid) by { ReadsText(m, KID, x.kid, []); }
    assert RequireText(Named(m, ALG)) == NonEmpty(x.alg) by { ReadsText(m, ALG, x.alg, []); }
    assert RequireBlob(Named(m, SIG)) == Ok(x.sig) by { ReadsBlob(m, SIG, x.sig); }
    assert RequireText(Named(m, ROLE)) == NonEmpty(x.role) by { ReadsText(m, ROLE, x.role, []); }
    assert OptTextOf(Named(m, SIGNED_AT)) == Ok(x.signedAt) by { ReadsOptText(m, SIGNED_AT, x.signedAt); }
    assert ItemsOr(Named(m, CERTIFICATE_CHAIN)) == Ok(Blobs(x.chain)) by { ReadsArray(m, CERTIFICATE_CHAIN, Blobs(x.chain)); }
    assert EntriesOr(Named(m, METADATA)) == Ok(x.metadata) by { ReadsDict(m, METADATA, x.metadata); }
    ChainRoundTrip(utf8, x.chain);
  }

  function SignatureWires(xs: seq<Signature>): (v: seq<Value>)
    ensures |v| == |xs| && forall i :: 0 <= i < |v| ==> v[i] == xs[i].Wire()
  {
    seq(|xs|, i requires 0 <= i < |xs| => xs[i].Wire())
  }

  predicate SoundSignatures(xs: seq<Signature>) {
    forall x <- xs :: x.Sound()
  }

  lemma SignaturesRoundTrip(utf8: Utf8, xs: seq<Signature>)
    requires TakesAscii(utf8) && forall x <- xs :: x.Valid(utf8)
    ensures ComesBack(utf8, Array(SignatureWires(xs)), Array(NormalizeItems(SignatureWires(xs))))
    ensures DecodeAll(SignatureFromPrimitive, NormalizeItems(SignatureWires(xs))) == if SoundSignatures(xs) then Ok(xs) else Err
  {
    hide Signature.Wire, Signature.Valid, Signature.Sound, SignatureFromPrimitive, IsPrimitive, TakesAscii;
    var items := NormalizeItems(SignatureWires(xs));
    forall i | 0 <= i < |xs|
      ensures ComesBack(utf8, SignatureWires(xs)[i], items[i])
      ensures SignatureFromPrimitive(items[i]) == if xs[i].Sound() then Ok(xs[i]) else Err
    {
      SignatureRoundTrip(utf8, xs[i]);
    }
    ListComesBack(utf8, SignatureWires(xs), items);
    if SoundSignatures(xs) {
      AllDecode(SignatureFromPrimitive, items, xs);
    } else {
      var i :| 0 <= i < |xs| && !xs[i].Sound();
      OneFails(SignatureFromPrimitive, items, i);
    }
  }

  // ----- the manifest core -----

  datatype Core = Core(
    version: int, artifact: Artifact, claims: seq<Claim>, createdAt: Option<Bytes>, c2pa: Value, encryptedClaims: Value,
    extensions: seq<Entry>)
  {
    /** The checks of the constructor. */
    predicate WellFormed() {
      version > 0 && claims != []
    }

    ghost predicate Valid(utf8: Utf8) {
      && WellFormed() && artifact.Valid(utf8) && (forall x <- claims :: x.Valid(utf8))
      && (createdAt.Some? ==> utf8(createdAt.value))
      && IsCanonical(utf8, c2pa) && IsCanonical(utf8, encryptedClaims) && IsCanonical(utf8, Dict(extensions))
    }

    predicate Sound() {
      artifact.Sound()
    }

    /** No claim has an entry that is kept by the drop and yet absent on the wire. */
    predicate Plain() {
      AllPlain(claims)
    }

    function Values(): (v: seq<Value>)
      ensures |v| == 7
    {
      [Int(version), artifact.Wire(), Array(ClaimWires(claims)), OptText(createdAt), c2pa, encryptedClaims, Dict(extensions)]
    }

    function Readings(): (v: seq<Value>)
      ensures |v| == 7
    {
      [Int(version), Normalize(artifact.Wire()), Array(NormalizeItems(ClaimWires(claims))), OptText(createdAt), c2pa, encryptedClaims,
       Dict(extensions)]
    }

    function Wire(): (v: Value) {
      Record(CoreNames(), Values())
    }

    /** The object that comes back. */
    function Canon(): (x: Core) {
      Core(version, artifact.Canon(), CanonClaims(claims), createdAt, Settled(c2pa), Settled(encryptedClaims), extensions)
    }
  }

  function CoreNames(): (n: seq<Name>)
    ensures |n| == 7
  {
    [MANIFEST_VERSION, ARTIFACT, CLAIMS, CREATED_AT, C2PA, ENCRYPTED_CLAIMS, EXTENSIONS]
  }

  lemma CoreNamesTell()
    ensures Telling(CoreNames())
  {
    var n := CoreNames();
    assert Tag(n[0]) == (16, 'm', 'n') && Tag(n[1]) == (8, 'a', 't') && Tag(n[2]) == (6, 'c', 's') && Tag(n[3]) == (10, 'c', 't');
    assert Tag(n[4]) == (4, 'c', 'a') && Tag(n[5]) == (16, 'e', 's') && Tag(n[6]) == (10, 'e', 's');
    hide Tag, CoreNames;
  }

  function RequireInt(v: Option<Value>): (r: Result<int>) {
    if v.Some? && v.value.Int? then Ok(v.value.i) else Err
  }

  function CoreFromPrimitive(v: Value): (r: Result<Core>) {
    if !v.Dict? then Err
    else
      var m := v.entries;
      var version :- RequireInt(Named(m, MANIFEST_VERSION));
      var artifact :- ArtifactFromPrimitive(AnyOf(Named(m, ARTIFACT)));
      var items :- ItemsOr(Named(m, CLAIMS));
      var claims :- DecodeAll(ClaimFromPrimitive, items);
      var createdAt :- OptTextOf(Named(m, CREATED_AT));
      var extensions :- EntriesOr(Named(m, EXTENSIONS));
      var core := Core(version, artifact, claims, createdAt, AnyOf(Named(m, C2PA)), AnyOf(Named(m, ENCRYPTED_CLAIMS)), extensions);
      if core.WellFormed() then Ok(core) else Err
  }

  lemma CoreComesBack(utf8: Utf8, x: Core)
    requires TakesAscii(utf8) && x.Valid(utf8)
    ensures AllComeBack(utf8, x.Values(), x.Readings())
  {
    hide IsPrimitive, IsCanonical, TakesAscii, Claim.Valid, ClaimWires, NormalizeItems, ClaimFromPrimitive, DecodeAll,
      Artifact.Valid, Artifact.Wire, ArtifactFromPrimitive, Artifact.Canon, CanonClaims;
    var v, w := x.Values(), x.Readings();
    assert ComesBack(utf8, v[1], w[1]) by { ArtifactRoundTrip(utf8, x.artifact); }
    hide ComesBack, Normalize;
    assert ComesBack(utf8, v[0], w[0]) by { LeafComesBack(utf8, None, x.version, true); }
    assert ComesBack(utf8, v[2], w[2]) by { ClaimsRoundTrip(utf8, x.claims); }
    assert ComesBack(utf8, v[3], w[3]) by { LeafComesBack(utf8, x.createdAt, 0, true); }
    assert ComesBack(utf8, v[4], w[4]) by { CanonicalComesBack(utf8, x.c2pa); }
    assert ComesBack(utf8, v[5], w[5]) by { CanonicalComesBack(utf8, x.encryptedClaims); }
    assert ComesBack(utf8, v[6], w[6]) by { CanonicalComesBack(utf8, Dict(x.extensions)); }
    hide Core.Values, Core.Readings;
  }

  lemma CoreReads(utf8: Utf8, x: Core) returns (m: seq<Entry>)
    requires TakesAscii(utf8) && x.Valid(utf8)
    ensures ComesBack(utf8, x.Wire(), Dict(m))
    ensures Reads(m, MANIFEST_VERSION, Int(x.version)) && Reads(m, ARTIFACT, Normalize(x.artifact.Wire()))
    ensures Reads(m, CLAIMS, Array(NormalizeItems(ClaimWires(x.claims)))) && Reads(m, CREATED_AT, OptText(x.createdAt))
    ensures Reads(m, C2PA, x.c2pa) && Reads(m, ENCRYPTED_CLAIMS, x.encryptedClaims) && Reads(m, EXTENSIONS, Dict(x.extensions))
  {
    hide Telling, Reads, Record, ComesBack, Core.Valid, MANIFEST_VERSION, ARTIFACT, CLAIMS, CREATED_AT, C2PA,
      ENCRYPTED_CLAIMS, EXTENSIONS, ClaimWires, NormalizeItems, Artifact.Wire, Normalize;
    CoreNamesTell();
    CoreComesBack(utf8, x);
    var n, v := CoreNames(), x.Readings();
    m := RecordReads(utf8, n, x.Values(), v);
    assert Reads(m, n[0], v[0]) && Reads(m, n[1], v[1]) && Reads(m, n[2], v[2]) && Reads(m, n[3], v[3]);
    assert Reads(m, n[4], v[4]) && Reads(m, n[5], v[5]) && Reads(m, n[6], v[6]);
  }

  lemma ReadsInt(m: seq<Entry>, name: Name, n: int)
    requires Reads(m, name, Int(n))
    ensures RequireInt(Named(m, name)) == Ok(n)
  {
    hide Named;
  }

  lemma SettledPresent(v: Value)
    requires !Absent(v)
    ensures Settled(v) == v
  {
  }

  /** A core comes back exactly when it is sound, and is never empty on the wire. */
  lemma CoreRoundTrip(utf8: Utf8, x: Core)
    requires TakesAscii(utf8) && x.Valid(utf8)
    ensures IsPrimitive(utf8, x.Wire()) && !Absent(Normalize(x.Wire()))
    ensures CoreFromPrimitive(Normalize(x.Wire())) == if x.Sound() then Ok(x.Canon()) else Err
  {
    var m := CoreReads(utf8, x);
    ReadsNotEmpty(m, MANIFEST_VERSION, Int(x.version));
    hide CoreFromPrimitive, Core.Canon, Reads, Named, RequireInt, AnyOf, ItemsOr, EntriesOr, OptTextOf, Settled, DecodeAll,
      Core.Wire, Artifact.Wire, Artifact.Valid, Claim.Valid, Artifact.Canon, IsPrimitive, IsCanonical, ClaimWires,
      CanonClaims, NormalizeItems, Normalize, ArtifactFromPrimitive, MANIFEST_VERSION, ARTIFACT, CLAIMS, CREATED_AT, C2PA,
      ENCRYPTED_CLAIMS, EXTENSIONS;
    assert RequireInt(Named(m, MANIFEST_VERSION)) == Ok(x.version) by { ReadsInt(m, MANIFEST_VERSION, x.version); }
    var artifact := Normalize(x.artifact.Wire());
    assert ArtifactFromPrimitive(AnyOf(Named(m, ARTIFACT))) == (if x.artifact.Sound() then Ok(x.artifact.Canon()) else Err) by {
      ArtifactRoundTrip(utf8, x.artifact);
      ReadsAny(m, ARTIFACT, artifact);
      SettledPresent(artifact);
    }
    var items := NormalizeItems(ClaimWires(x.claims));
    assert ItemsOr(Named(m, CLAIMS)) == Ok(items) by { ReadsArray(m, CLAIMS, items); }
    assert DecodeAll(ClaimFromPrimitive, items) == Ok(CanonClaims(x.claims)) by { ClaimsRoundTrip(utf8, x.claims); }
    assert OptTextOf(Named(m, CREATED_AT)) == Ok(x.createdAt) by { ReadsOptText(m, CREATED_AT, x.createdAt); }
    assert AnyOf(Named(m, C2PA)) == Settled(x.c2pa) by { ReadsAny(m, C2PA, x.c2pa); }
    assert AnyOf(Named(m, ENCRYPTED_CLAIMS)) == Settled(x.encryptedClaims) by { ReadsAny(m, ENCRYPTED_CLAIMS, x.encryptedClaims); }
    assert EntriesOr(Named(m, EXTENSIONS)) == Ok(x.extensions) by { ReadsDict(m, EXTENSIONS, x.extensions); }
    CoreFromFields(m, x, items);
  }

  lemma CoreFromFields(m: seq<Entry>, x: Core, items: seq<Value>)
    requires x.WellFormed() && RequireInt(Named(m, MANIFEST_VERSION)) == Ok(x.version)
    requires ArtifactFromPrimitive(AnyOf(Named(m, ARTIFACT))) == if x.artifact.Sound() then Ok(x.artifact.Canon()) else Err
    requires ItemsOr(Named(m, CLAIMS)) == Ok(items) && DecodeAll(ClaimFromPrimitive, items) == Ok(CanonClaims(x.claims))
    requires OptTextOf(Named(m, CREATED_AT)) == Ok(x.createdAt) && EntriesOr(Named(m, EXTENSIONS)) == Ok(x.extensions)
    requires AnyOf(Named(m, C2PA)) == Settled(x.c2pa) && AnyOf(Named(m, ENCRYPTED_CLAIMS)) == Settled(x.encryptedClaims)
    ensures CoreFromPrimitive(Dict(m)) == if x.Sound() then Ok(x.Canon()) else Err
  {
    hide Artifact.Sound, Named, RequireInt, AnyOf, ItemsOr, EntriesOr, OptTextOf, Settled, DecodeAll, Artifact.Canon,
      CanonClaims, ArtifactFromPrimitive, MANIFEST_VERSION, ARTIFACT, CLAIMS, CREATED_AT, C2PA, ENCRYPTED_CLAIMS, EXTENSIONS;
    assert |CanonClaims(x.claims)| == |x.claims|;
  }

  lemma CanonCoreValid(utf8: Utf8, x: Core)
    requires TakesAscii(utf8) && x.Valid(utf8)
    ensures x.Canon().Valid(utf8)
  {
    hide IsCanonical, Settled, Claim.Valid, Claim.Canon, Region.Valid, TakesAscii;
    SettledCanonical(utf8, x.artifact.wmAlgId);
    SettledCanonical(utf8, x.c2pa);
    SettledCanonical(utf8, x.encryptedClaims);
    ClaimsSame(utf8, x.claims);
    hide Required;
    assert |CanonClaims(x.claims)| == |x.claims|;
  }

  /**
    What comes back is written as before, although absent parts are gone, exactly when no claim
    holds an entry that the drop kept and the conversion emptied.
    */
  lemma CoreSame(utf8: Utf8, x: Core)
    requires TakesAscii(utf8) && x.Valid(utf8)
    ensures Normalize(x.Canon().Wire()) == Normalize(x.Wire()) <==> x.Plain()
    ensures Encode(x.Wire()).Ok? ==> Encode(x.Canon().Wire()).Ok?
  {
    hide Core.Wire, Normalize, Encode, Core.Valid, Core.Plain, IsPrimitive, TakesAscii;
    if x.Plain() { PlainCoreSame(utf8, x); }
    if Normalize(x.Canon().Wire()) == Normalize(x.Wire()) { SameCorePlain(utf8, x); }
    if Encode(x.Wire()).Ok? { CanonCoreEncodes(utf8, x); }
  }

  lemma PlainCoreSame(utf8: Utf8, x: Core)
    requires TakesAscii(utf8) && x.Valid(utf8) && x.Plain()
    ensures Normalize(x.Canon().Wire()) == Normalize(x.Wire())
  {
    hide Normalize, Record, NormalizeItems, AllPlain, Artifact.Wire, Artifact.Canon, ClaimWires, CanonClaims, Settled,
      Absent, Claim.Valid, Artifact.Valid, IsCanonical, Core.Values;
    var v, w := x.Canon().Values(), x.Values();
    CoreFields(x);
    CanonCoreFields(x);
    hide Core.Canon, OptText;
    assert Alike(v[1], w[1]) by { ArtifactSame(x.artifact); }
    assert Alike(v[2], w[2]) by {
      ClaimsSame(utf8, x.claims);
      NormalArray(ClaimWires(CanonClaims(x.claims)));
      NormalArray(ClaimWires(x.claims));
    }
    assert Alike(v[4], w[4]) by { SettledAlike(x.c2pa); }
    assert Alike(v[5], w[5]) by { SettledAlike(x.encryptedClaims); }
    assert Alike(v[0], w[0]) && Alike(v[3], w[3]) && Alike(v[6], w[6]);
    hide Alike;
    SameRecord(CoreNames(), v, w);
  }

  lemma CoreFields(x: Core)
    ensures var v := x.Values();
      && v[0] == Int(x.version) && v[1] == x.artifact.Wire() && v[2] == Array(ClaimWires(x.claims))
      && v[3] == OptText(x.createdAt) && v[4] == x.c2pa && v[5] == x.encryptedClaims && v[6] == Dict(x.extensions)
  {
    hide Artifact.Wire, ClaimWires;
  }

  lemma CanonCoreFields(x: Core)
    ensures var v := x.Canon().Values();
      && v[0] == Int(x.version) && v[1] == x.artifact.Canon().Wire() && v[2] == Array(ClaimWires(CanonClaims(x.claims)))
      && v[3] == OptText(x.createdAt) && v[4] == Settled(x.c2pa) && v[5] == Settled(x.encryptedClaims) && v[6] == Dict(x.extensions)
  {
    CoreFields(x.Canon());
  }

  lemma NormalArray(items: seq<Value>)
    ensures Normalize(Array(items)) == Array(NormalizeItems(items))
  {
  }

  lemma SameCorePlain(utf8: Utf8, x: Core)
    requires TakesAscii(utf8) && x.Valid(utf8) && Normalize(x.Canon().Wire()) == Normalize(x.Wire())
    ensures x.Plain()
  {
    hide Normalize, Record, NormalizeItems, AllPlain, Artifact.Wire, ClaimWires, CanonClaims, Settled, Reads, IsPrimitive,
      IsCanonical, Core.Wire, CLAIMS, Core.Valid;
    CanonCoreValid(utf8, x);
    var m := CoreReads(utf8, x);
    var n := CoreReads(utf8, x.Canon());
    ReadsOne(m, CLAIMS, Array(NormalizeItems(ClaimWires(x.claims))), Array(NormalizeItems(ClaimWires(CanonClaims(x.claims)))));
    assert forall c <- x.claims :: c.Valid(utf8) by { CoreClaimsValid(utf8, x); }
    ClaimsSame(utf8, x.claims);
  }

  lemma CoreClaimsValid(utf8: Utf8, x: Core)
    requires x.Valid(utf8)
    ensures forall c <- x.claims :: c.Valid(utf8)
  {
  }

  lemma CanonClaimsEncode(utf8: Utf8, xs: seq<Claim>)
    requires TakesAscii(utf8) && (forall x <- xs :: x.Valid(utf8)) && Encode(Array(ClaimWires(xs))).Ok?
    ensures Encode(Array(ClaimWires(CanonClaims(xs)))).Ok?
  {
    hide Encode, Claim.Valid, NormalizeItems, TakesAscii;
    ClaimsSame(utf8, xs);
    ArrayEncodes(ClaimWires(xs));
    ArrayEncodes(ClaimWires(CanonClaims(xs)));
    hide AllEncoded;
    assert |ClaimWires(CanonClaims(xs))| == |CanonClaims(xs)| == |ClaimWires(xs)|;
  }

  lemma CanonCoreEncodes(utf8: Utf8, x: Core)
    requires TakesAscii(utf8) && x.Valid(utf8) && Encode(x.Wire()).Ok?
    ensures Encode(x.Canon().Wire()).Ok?
  {
    hide Encode, Record, Artifact.Wire, Artifact.Canon, ClaimWires, CanonClaims, Settled, Claim.Valid, Artifact.Valid,
      IsCanonical, Telling, Core.Values, NormalizeItems;
    var v, w := x.Canon().Values(), x.Values();
    CoreNamesTell();
    RecordEncodes(CoreNames(), w);
    assert forall i :: 0 <= i < 7 ==> Encode(w[i]).Ok?;
    CoreFields(x);
    CanonCoreFields(x);
    assert Encode(v[1]).Ok? by {
      assert Encode(w[1]).Ok?;
      ArtifactSame(x.artifact);
    }
    assert Encode(v[2]).Ok? by {
      assert Encode(w[2]).Ok?;
      CanonClaimsEncode(utf8, x.claims);
    }
    assert Encode(v[4]).Ok? by {
      assert Encode(w[4]).Ok?;
      SettledAlike(x.c2pa);
    }
    assert Encode(v[5]).Ok? by {
      assert Encode(w[5]).Ok?;
      SettledAlike(x.encryptedClaims);
    }
    assert v[0] == w[0] && v[3] == w[3] && v[6] == w[6];
    hide Core.Canon;
    RecordEncodes(CoreNames(), v);
  }

  // ----- the signed manifest -----

  /** The canonical bytes a signature is sorted by. */
  function SignatureBytes(x: Signature): (b: Result<Bytes>) {
    Encode(x.Wire())
  }

  predicate AllEncodable(xs: seq<Signature>) {
    forall x <- xs :: SignatureBytes(x).Ok?
  }

  function SignatureRanks(xs: seq<Signature>): (r: seq<R.Ranked<Signature>>)
    requires AllEncodable(xs)
    ensures |r| == |xs| && forall i :: 0 <= i < |r| ==> r[i] == R.Ranked(0, [SignatureBytes(xs[i]).value], xs[i])
  {
    seq(|xs|, i requires 0 <= i < |xs| => R.Ranked(0, [SignatureBytes(xs[i]).value], xs[i]))
  }

  datatype SignedManifest = SignedManifest(core: Core, signatures: seq<Signature>) {

    function Values(): (v: seq<Value>)
      ensures |v| == 2
    {
      [core.Wire(), Array(SignatureWires(signatures))]
    }

    /** `to_canonical` drops nothing. */
    function Wire(): (v: Value) {
      Full(ManifestNames(), Values())
    }

    /** What the decoder demands of the parts: texts that are not empty. */
    predicate Sound() {
      core.Sound() && SoundSignatures(signatures)
    }

    /** The addressed bytes. */
    function CanonicalBytes(): (b: Result<Bytes>) {
      Encode(Wire())
    }

    function Canon(): (m: SignedManifest) {
      SignedManifest(core.Canon(), signatures)
    }
  }

  function ManifestNames(): (n: seq<Name>)
    ensures |n| == 2
  {
    [CORE, SIGNATURES]
  }

  lemma ManifestNamesTell()
    ensures Telling(ManifestNames()) && Telling(ManifestNames() + [MANIFEST])
  {
    var n := ManifestNames() + [MANIFEST];
    assert Tag(n[0]) == (4, 'c', 'e') && Tag(n[1]) == (10, 's', 's') && Tag(n[2]) == (8, 'm', 't');
    assert Tag(ManifestNames()[0]) == (4, 'c', 'e') && Tag(ManifestNames()[1]) == (10, 's', 's');
    hide Tag, ManifestNames;
  }

  /** The constructor: at least one signature, sorted by canonical bytes. */
  function MakeSigned(core: Core, signatures: seq<Signature>): (m: Result<SignedManifest>) {
    if signatures == [] || !AllEncodable(signatures) then Err
    else Ok(SignedManifest(core, R.Unkeyed(R.SortRanked(SignatureRanks(signatures)))))
  }

  function SignedManifestFromPrimitive(v: Value): (r: Result<SignedManifest>) {
    if !v.Dict? then Err
    else
      var m := v.entries;
      var core :- CoreFromPrimitive(AnyOf(Named(m, CORE)));
      var items :- ItemsOr(Named(m, SIGNATURES));
      var signatures :- DecodeAll(SignatureFromPrimitive, items);
      MakeSigned(core, signatures)
  }

  function SignedManifestFromBytes(utf8: Utf8, data: Bytes): (r: Result<SignedManifest>) {
    var v :- Loads(utf8, data, true);
    SignedManifestFromPrimitive(v)
  }

  /** It refuses an empty list and signatures without an encoding; otherwise no signature has smaller bytes than one before it. */
  lemma MadeAscending(core: Core, signatures: seq<Signature>)
    ensures MakeSigned(core, signatures).Ok? <==> signatures != [] && forall x <- signatures :: Encode(x.Wire()).Ok?
    ensures MakeSigned(core, signatures).Ok? ==> var s := MakeSigned(core, signatures).value.signatures;
      forall i, j :: 0 <= i < j < |s| && Encode(s[i].Wire()).Ok? && Encode(s[j].Wire()).Ok? ==>
        !L.Less(Encode(s[j].Wire()).value, Encode(s[i].Wire()).value)
  {
    hide Encode, L.Less, Signature.Wire;
    if MakeSigned(core, signatures).Ok? {
      MadeSigned(core, signatures);
      hide MakeSigned;
      var s := MakeSigned(core, signatures).value.signatures;
      var ranks := SignatureRanks(s);
      forall i, j | 0 <= i < j < |s| && Encode(s[i].Wire()).Ok? && Encode(s[j].Wire()).Ok?
        ensures !L.Less(Encode(s[j].Wire()).value, Encode(s[i].Wire()).value)
      {
        assert !R.RankLess(ranks[j], ranks[i]);
      }
    }
  }

  /** What the constructor makes: the same signatures, sorted once and for all. */
  lemma MadeSigned(core: Core, signatures: seq<Signature>)
    requires MakeSigned(core, signatures).Ok?
    ensures var m := MakeSigned(core, signatures).value;
      && m.core == core && multiset(m.signatures) == multiset(signatures)
      && (forall x :: x in m.signatures <==> x in signatures) && AllEncodable(m.signatures)
      && R.Ordered(SignatureRanks(m.signatures))
      && forall c :: MakeSigned(c, m.signatures) == Ok(SignedManifest(c, m.signatures))
  {
    hide SignatureBytes, R.SortRanked, R.Ordered;
    var ranks := SignatureRanks(signatures);
    var u := R.SortRanked(ranks);
    var sorted := R.Unkeyed(u);
    R.SortValues(ranks);
    assert R.Unkeyed(ranks) == signatures;
    R.SortRankedPermutes(ranks);
    R.SortOrdered(ranks);
    R.SortOfOrdered(u);
    forall x ensures x in sorted <==> x in signatures {
      assert x in sorted <==> x in multiset(sorted);
      assert x in signatures <==> x in multiset(signatures);
    }
    forall i | 0 <= i < |u| ensures u[i] == R.Ranked(0, [SignatureBytes(u[i].value).value], u[i].value) {
      assert u[i] in multiset(u);
      assert u[i] in ranks;
    }
    assert SignatureRanks(sorted) == u;
  }

  /** A valid signature is determined by its bytes. */
  lemma SignatureInjective(utf8: Utf8, x: Signature, y: Signature)
    requires TakesAscii(utf8) && x.Valid(utf8) && y.Valid(utf8)
    requires SignatureBytes(x).Ok? && SignatureBytes(x) == SignatureBytes(y)
    ensures x == y
  {
    hide Signature.Wire, Signature.Valid, Encode, IsPrimitive, Normalize, Reads, OptText, Blobs, KID, ALG, SIG, ROLE,
      SIGNED_AT, CERTIFICATE_CHAIN, METADATA;
    var m := SignatureReads(utf8, x);
    var n := SignatureReads(utf8, y);
    EncodingsEqualIffValuesEqual(utf8, x.Wire(), y.Wire());
    ReadsOne(m, KID, Text(x.kid), Text(y.kid));
    ReadsOne(m, ALG, Text(x.alg), Text(y.alg));
    ReadsOne(m, SIG, Blob(x.sig), Blob(y.sig));
    ReadsOne(m, ROLE, Text(x.role), Text(y.role));
    ReadsOneOpt(m, SIGNED_AT, x.signedAt, y.signedAt);
    assert x.chain == y.chain by {
      ReadsOne(m, CERTIFICATE_CHAIN, Array(Blobs(x.chain)), Array(Blobs(y.chain)));
      ChainRoundTrip(utf8, x.chain);
      ChainRoundTrip(utf8, y.chain);
    }
    ReadsOne(m, METADATA, Dict(x.metadata), Dict(y.metadata));
  }

  /** Two sorted lists of the same valid signatures are the same list. */
  lemma {:induction false} SortedSignaturesUnique(utf8: Utf8, a: seq<Signature>, b: seq<Signature>)
    requires TakesAscii(utf8) && (forall x <- a :: x.Valid(utf8)) && (forall x <- b :: x.Valid(utf8))
    requires AllEncodable(a) && AllEncodable(b) && multiset(a) == multiset(b)
    requires R.Ordered(SignatureRanks(a)) && R.Ordered(SignatureRanks(b))
    ensures a == b
  {
    hide SignatureBytes, Signature.Valid, TakesAscii, R.RankLess, R.Ordered, AllEncodable;
    assert |multiset(a)| == |a| && |multiset(b)| == |b|;
    if a != [] {
      LastsAgree(utf8, a, b);
      OrderedInit(a);
      OrderedInit(b);
      InitMembers(a, b);
      SortedSignaturesUnique(utf8, a[..|a| - 1], b[..|b| - 1]);
      assert a == a[..|a| - 1] + [a[|a| - 1]] && b == b[..|b| - 1] + [b[|b| - 1]];
    }
  }

  lemma InitMembers<T>(a: seq<T>, b: seq<T>)
    requires a != [] && b != [] && multiset(a) == multiset(b) && a[|a| - 1] == b[|b| - 1]
    ensures multiset(a[..|a| - 1]) == multiset(b[..|b| - 1])
  {
    WithoutLast(a);
    WithoutLast(b);
  }

  lemma WithoutLast<T>(a: seq<T>)
    requires a != []
    ensures multiset(a[..|a| - 1]) == multiset(a) - multiset{a[|a| - 1]}
  {
    assert a == a[..|a| - 1] + [a[|a| - 1]];
  }

  lemma LastsAgree(utf8: Utf8, a: seq<Signature>, b: seq<Signature>)
    requires TakesAscii(utf8) && (forall x <- a :: x.Valid(utf8)) && (forall x <- b :: x.Valid(utf8))
    requires AllEncodable(a) && AllEncodable(b) && multiset(a) == multiset(b) && a != [] && b != []
    requires R.Ordered(SignatureRanks(a)) && R.Ordered(SignatureRanks(b))
    ensures a[|a| - 1] == b[|b| - 1]
  {
    hide SignatureBytes, Signature.Valid, TakesAscii, R.RankLess, R.Ordered;
    var x, y := a[|a| - 1], b[|b| - 1];
    assert x in multiset(b) && y in multiset(a);
    LastIsMaximal(a, y);
    LastIsMaximal(b, x);
    EqualRanks(SignatureRanks(a)[|a| - 1], SignatureRanks(b)[|b| - 1]);
    SignatureInjective(utf8, x, y);
  }

  lemma LastIsMaximal(a: seq<Signature>, y: Signature)
    requires AllEncodable(a) && R.Ordered(SignatureRanks(a)) && y in a
    ensures SignatureBytes(y).Ok?
    ensures !R.RankLess(SignatureRanks(a)[|a| - 1], R.Ranked(0, [SignatureBytes(y).value], y))
  {
    hide SignatureBytes, R.RankLess;
    var i :| 0 <= i < |a| && a[i] == y;
    R.RankAsymmetric(SignatureRanks(a)[i], SignatureRanks(a)[i]);
  }

  lemma EqualRanks(x: R.Ranked<Signature>, y: R.Ranked<Signature>)
    requires x.major == y.major == 0 && |x.parts| == |y.parts| == 1 && !R.RankLess(x, y) && !R.RankLess(y, x)
    ensures x.parts[0] == y.parts[0]
  {
    R.PartsTotal(x.parts, y.parts);
  }

  lemma OrderedInit(a: seq<Signature>)
    requires a != [] && AllEncodable(a) && R.Ordered(SignatureRanks(a))
    ensures AllEncodable(a[..|a| - 1]) && R.Ordered(SignatureRanks(a[..|a| - 1]))
  {
    hide SignatureBytes, R.RankLess;
    assert SignatureRanks(a[..|a| - 1]) == SignatureRanks(a)[..|a| - 1];
  }

  /** The order in which signatures are supplied reaches neither the manifest nor its bytes. */
  lemma SignatureOrderIrrelevant(utf8: Utf8, core: Core, a: seq<Signature>, b: seq<Signature>)
    requires TakesAscii(utf8) && (forall x <- a :: x.Valid(utf8)) && multiset(a) == multiset(b)
    ensures MakeSigned(core, a) == MakeSigned(core, b)
  {
    hide SignatureBytes, Signature.Valid, R.Ordered, TakesAscii;
    forall x ensures x in a <==> x in b {
      assert x in a <==> x in multiset(a);
      assert x in b <==> x in multiset(b);
    }
    assert a == [] <==> b == [] by {
      assert |multiset(a)| == |a| && |multiset(b)| == |b|;
    }
    if MakeSigned(core, a).Ok? {
      MadeSigned(core, a);
      MadeSigned(core, b);
      SortedSignaturesUnique(utf8, MakeSigned(core, a).value.signatures, MakeSigned(core, b).value.signatures);
    }
  }

  ghost predicate ValidParts(utf8: Utf8, core: Core, signatures: seq<Signature>) {
    TakesAscii(utf8) && core.Valid(utf8) && forall x <- signatures :: x.Valid(utf8)
  }

  /** How the two fields of a signed manifest read back. */
  lemma SignedReads(utf8: Utf8, m: SignedManifest) returns (r: seq<Entry>)
    requires ValidParts(utf8, m.core, m.signatures)
    ensures ComesBack(utf8, m.Wire(), Dict(r))
    ensures Named(r, CORE) == Some(Normalize(m.core.Wire())) && Named(r, MANIFEST) == None
    ensures Named(r, SIGNATURES) == Some(Array(NormalizeItems(SignatureWires(m.signatures))))
  {
    hide Core.Wire, Core.Valid, Signature.Valid, Telling, TakesAscii, IsPrimitive, Normalize, NormalizeItems, Named, Full,
      CORE, SIGNATURES, MANIFEST, SignatureWires, CoreFromPrimitive, SignatureFromPrimitive, DecodeAll, Core.Canon;
    ManifestNamesTell();
    var n, v := ManifestNames(), m.Values();
    var w := [Normalize(m.core.Wire()), Array(NormalizeItems(SignatureWires(m.signatures)))];
    assert AllComeBack(utf8, v, w) by {
      CoreRoundTrip(utf8, m.core);
      SignaturesRoundTrip(utf8, m.signatures);
    }
    r := FullReads(utf8, n, v, w);
    assert Named(r, n[0]) == Some(w[0]) && Named(r, n[1]) == Some(w[1]);
  }

  /** Decoding what a signed manifest was written as, at any place in a document. */
  lemma SignedRoundTrip(utf8: Utf8, core: Core, signatures: seq<Signature>)
    requires ValidParts(utf8, core, signatures) && MakeSigned(core, signatures).Ok?
    ensures var m := MakeSigned(core, signatures).value;
      ValidParts(utf8, m.core, m.signatures)
      && SignedManifestFromPrimitive(Normalize(m.Wire())) == if m.Sound() then Ok(m.Canon()) else Err
  {
    hide Core.Wire, Core.Valid, Core.Canon, Signature.Valid, Named, CoreFromPrimitive, DecodeAll, MakeSigned, CORE,
      SIGNATURES, MANIFEST, SignedManifest.Wire, TakesAscii, IsPrimitive, Normalize, NormalizeItems, SignatureWires;
    MadeSigned(core, signatures);
    var m := MakeSigned(core, signatures).value;
    var r := SignedReads(utf8, m);
    CoreRoundTrip(utf8, core);
    SignaturesRoundTrip(utf8, m.signatures);
  }

  /** The manifest that comes back has an encoding, and the same one exactly when its core is plain. */
  lemma SignedSame(utf8: Utf8, m: SignedManifest)
    requires ValidParts(utf8, m.core, m.signatures) && m.CanonicalBytes().Ok?
    ensures m.Canon().CanonicalBytes().Ok?
    ensures m.Canon().CanonicalBytes() == m.CanonicalBytes() <==> m.core.Plain()
  {
    hide Core.Wire, Core.Valid, Core.Canon, Core.Plain, Signature.Valid, Named, CORE, SIGNATURES, MANIFEST, TakesAscii,
      IsPrimitive, Normalize, NormalizeItems, SignatureWires, Encode, Full, Telling;
    var v, w := m.Canon().Values(), m.Values();
    CoreSame(utf8, m.core);
    CanonCoreValid(utf8, m.core);
    ManifestNamesTell();
    assert m.Canon().CanonicalBytes().Ok? by {
      RecordEncodes(ManifestNames(), v);
      RecordEncodes(ManifestNames(), w);
      assert Encode(w[0]).Ok? && Encode(w[1]).Ok?;
    }
    var r := SignedReads(utf8, m);
    var t := SignedReads(utf8, m.Canon());
    EncodingsEqualIffValuesEqual(utf8, m.Canon().Wire(), m.Wire());
    if m.core.Plain() { SameFull(ManifestNames(), v, w); }
  }

  /**
    The codec and the addressed bytes: the canonical bytes of a signed manifest decode exactly
    when its required texts are not empty, and what they decode to has the same bytes exactly
    when no claim holds an entry that the drop kept and the conversion emptied.
    */
  lemma CodecKeepsAddressedBytes(utf8: Utf8, core: Core, signatures: seq<Signature>)
    requires ValidParts(utf8, core, signatures) && MakeSigned(core, signatures).Ok?
    requires MakeSigned(core, signatures).value.CanonicalBytes().Ok?
    ensures var m := MakeSigned(core, signatures).value;
      && SignedManifestFromBytes(utf8, m.CanonicalBytes().value) == (if m.Sound() then Ok(m.Canon()) else Err)
      && m.Canon().CanonicalBytes().Ok?
      && (m.Canon().CanonicalBytes() == m.CanonicalBytes() <==> core.Plain())
  {
    hide Core.Plain, ValidParts, SignedManifestFromPrimitive, MakeSigned, Encode, Loads, IsPrimitive, Normalize,
      SignedManifest.Wire, SignedManifest.Canon, Named, Core.Valid, Signature.Valid;
    var m := MakeSigned(core, signatures).value;
    assert m.core == core by { MadeSigned(core, signatures); }
    SignedRoundTrip(utf8, core, signatures);
    SignedSame(utf8, m);
    var r := SignedReads(utf8, m);
    ValueLoads(utf8, m.Wire());
  }

  // ----- a manifest whose bytes are not kept -----

  const SOME: Name := "x"

  /** A claim whose body is `{"x": ()}`, in an otherwise plain manifest. */
  function TupleClaim(): (c: Claim) {
    Claim(Ascii(SOME), [Item(Ascii(SOME), Tuple([]))])
  }

  function TupleCore(): (c: Core) {
    var t := Ascii(SOME);
    Core(1, Artifact(t, t, seq(32, _ => 0), t, Null, None, None, []), [TupleClaim()], None, Null, Null, [])
  }

  function SomeSignature(): (s: Signature) {
    var t := Ascii(SOME);
    Signature(t, t, t, t, None, [], [])
  }

  lemma TupleValid(utf8: Utf8)
    requires TakesAscii(utf8)
    ensures TupleCore().Valid(utf8) && SomeSignature().Valid(utf8) && !TupleCore().Plain()
    ensures SignedManifest(TupleCore(), [SomeSignature()]).Sound()
  {
    assert |Ascii(SOME)| == 1 && |Ascii(TYPE)| == 4;
    assert utf8(Ascii(SOME));
    hide Ascii, SOME, TYPE;
    var c := TupleClaim();
    assert ToEntries(c.body) == [Entry(Ascii(SOME), Array([]))];
    assert IsPrimitive(utf8, Dict(ToEntries(c.body)));
    assert c.body[0] in c.body && Masked(c.body[0].content);
    assert c.Valid(utf8) && !c.Plain();
    assert c in [c];
    hide Claim.Valid, Claim.Plain, TupleClaim;
    assert IsCanonical(utf8, Null) && IsCanonical(utf8, Dict([]));
  }

  lemma TupleClaimEncodes()
    ensures Encode(TupleClaim().Wire()).Ok?
  {
    assert |Ascii(SOME)| == 1 && |Ascii(TYPE)| == 4;
    hide Ascii, SOME, TYPE, Encode;
    var c := TupleClaim();
    LeafEncodes(c.kind, 0, true);
    assert DropNothing(c.body) == c.body by { assert c.body[1..] == []; assert DropNothing([]) == []; }
    assert c.Kept() == [Entry(Ascii(SOME), Array([]))];
    var m := [Entry(Ascii(TYPE), Text(c.kind)), Entry(Ascii(SOME), Array([]))];
    assert [Entry(Ascii(TYPE), Text(c.kind))] + c.Kept() == m;
    DictEncodes(m);
  }

  lemma SmallArtifactEncodes(x: Artifact)
    requires |x.mediaType| < U64_LIMIT && |x.essenceAlgId| < U64_LIMIT && |x.essenceHash| < U64_LIMIT && |x.hashAlg| < U64_LIMIT
    requires x.wmAlgId == Null && x.strictByteHash == x.strictDecodeHash == None && x.regions == []
    ensures Encode(x.Wire()).Ok?
  {
    hide Encode, Record, Telling;
    var v := x.Values();
    assert RegionWires([]) == [];
    assert Encode(v[0]).Ok? by { LeafEncodes(x.mediaType, 0, true); }
    assert Encode(v[1]).Ok? by { LeafEncodes(x.essenceAlgId, 0, true); }
    assert Encode(v[2]).Ok? by { LeafEncodes(x.essenceHash, 0, true); }
    assert Encode(v[3]).Ok? by { LeafEncodes(x.hashAlg, 0, true); }
    assert Encode(v[4]).Ok? && Encode(v[5]).Ok? && Encode(v[6]).Ok? && Encode(v[7]).Ok? by { LeafEncodes([], 0, true); }
    hide Artifact.Values;
    ArtifactNamesTell();
    RecordEncodes(ArtifactNames(), v);
  }

  lemma SmallCoreEncodes(x: Core)
    requires 0 <= x.version < U64_LIMIT && Encode(x.artifact.Wire()).Ok? && |x.claims| == 1 && Encode(x.claims[0].Wire()).Ok?
    requires x.createdAt == None && x.c2pa == x.encryptedClaims == Null && x.extensions == []
    ensures Encode(x.Wire()).Ok?
  {
    hide Encode, Record, Telling, Claim.Wire, Artifact.Wire, Core.Values;
    var v := x.Values();
    CoreFields(x);
    assert Encode(v[0]).Ok? by { LeafEncodes([], x.version, true); }
    assert Encode(v[2]).Ok? by { ArrayEncodes(ClaimWires(x.claims)); }
    assert Encode(v[3]).Ok? && Encode(v[4]).Ok? && Encode(v[5]).Ok? && Encode(v[6]).Ok? by { LeafEncodes([], 0, true); }
    CoreNamesTell();
    RecordEncodes(CoreNames(), v);
  }

  lemma TupleCoreEncodes()
    ensures Encode(TupleCore().Wire()).Ok?
  {
    assert |Ascii(SOME)| == |SOME| == 1;
    hide Ascii, SOME, Encode, TupleClaim, Claim.Wire, Artifact.Wire, Core.Wire;
    TupleClaimEncodes();
    SmallArtifactEncodes(TupleCore().artifact);
    SmallCoreEncodes(TupleCore());
  }

  lemma SmallSignatureEncodes(x: Signature)
    requires |x.kid| < U64_LIMIT && |x.alg| < U64_LIMIT && |x.sig| < U64_LIMIT && |x.role| < U64_LIMIT
    requires x.signedAt == None && x.chain == [] && x.metadata == []
    ensures SignatureBytes(x).Ok?
  {
    hide Encode, Record, Telling;
    var v := x.Values();
    assert Blobs([]) == [];
    assert Encode(v[0]).Ok? by { LeafEncodes(x.kid, 0, true); }
    assert Encode(v[1]).Ok? by { LeafEncodes(x.alg, 0, true); }
    assert Encode(v[2]).Ok? by { LeafEncodes(x.sig, 0, true); }
    assert Encode(v[3]).Ok? by { LeafEncodes(x.role, 0, true); }
    assert Encode(v[4]).Ok? && Encode(v[5]).Ok? && Encode(v[6]).Ok? by { LeafEncodes([], 0, true); }
    hide Signature.Values;
    SignatureNamesTell();
    RecordEncodes(SignatureNames(), v);
  }

  /** An empty tuple in a claim: a valid manifest that encodes and decodes, but to other bytes. */
  lemma EmptyTupleChangesBytes(utf8: Utf8)
    requires TakesAscii(utf8)
    ensures ValidParts(utf8, TupleCore(), [SomeSignature()]) && MakeSigned(TupleCore(), [SomeSignature()]).Ok?
    ensures var m := MakeSigned(TupleCore(), [SomeSignature()]).value;
      && m.CanonicalBytes().Ok? && SignedManifestFromBytes(utf8, m.CanonicalBytes().value) == Ok(m.Canon())
      && m.Canon().CanonicalBytes() != m.CanonicalBytes()
  {
    hide TupleCore, SomeSignature, Core.Valid, Core.Plain, Signature.Valid, SignatureBytes, SignedManifestFromBytes,
      MakeSigned, SignedManifest.CanonicalBytes, SignedManifest.Canon;
    TupleValid(utf8);
    assert SignatureBytes(SomeSignature()).Ok? by { SomeSignatureEncodes(); }
    OneSignature(TupleCore(), SomeSignature());
    var m := MakeSigned(TupleCore(), [SomeSignature()]).value;
    assert m.CanonicalBytes().Ok? by {
      TupleCoreEncodes();
      SignedEncodes(m);
    }
    CodecKeepsAddressedBytes(utf8, TupleCore(), [SomeSignature()]);
  }

  lemma SomeSignatureEncodes()
    ensures SignatureBytes(SomeSignature()).Ok?
  {
    assert |Ascii(SOME)| == |SOME| == 1;
    hide Ascii, SOME, SignatureBytes;
    SmallSignatureEncodes(SomeSignature());
  }

  lemma OneSignature(core: Core, x: Signature)
    requires SignatureBytes(x).Ok?
    ensures MakeSigned(core, [x]) == Ok(SignedManifest(core, [x]))
  {
    hide SignatureBytes;
    var ranks := SignatureRanks([x]);
    assert ranks == [ranks[0]] && ranks[..0] == [];
    assert R.SortRanked(ranks[..0]) == [] && R.InsertRanked([], ranks[0]) == ranks;
    assert R.SortRanked(ranks) == ranks;
    assert R.Unkeyed(ranks) == [x];
  }

  lemma SignedEncodes(m: SignedManifest)
    ensures m.CanonicalBytes().Ok? <==> Encode(m.core.Wire()).Ok? && |m.signatures| < U64_LIMIT && AllEncodable(m.signatures)
  {
    hide Encode, Full, Telling, Core.Wire, Signature.Wire;
    ManifestNamesTell();
    RecordEncodes(ManifestNames(), m.Values());
    assert AllEncoded(m.Values()) <==> Encode(m.Values()[0]).Ok? && Encode(m.Values()[1]).Ok?;
    ArrayEncodes(SignatureWires(m.signatures));
    if AllEncodable(m.signatures) {
      forall i | 0 <= i < |m.signatures| ensures Encode(SignatureWires(m.signatures)[i]).Ok? {
        assert m.signatures[i] in m.signatures;
      }
    }
    if AllEncoded(SignatureWires(m.signatures)) {
      forall x | x in m.signatures ensures SignatureBytes(x).Ok? {
        var i :| 0 <= i < |m.signatures| && m.signatures[i] == x;
        assert Encode(SignatureWires(m.signatures)[i]).Ok?;
      }
    }
  }
}
