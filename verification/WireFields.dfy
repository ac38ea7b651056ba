/**
  The records as they are written: which field stands under which name.  A field that is null,
  an empty list or an empty map is left out, except where noted.
  */
module WireFields {
  import opened Wrappers
  import opened Digits
  import opened Canonical
  import opened Hashes
  import opened Schema
  import opened Hints
  import opened References
  import opened Candidates
  import opened Manifest
  import opened Documents
  import opened Objects
  import P = Payload

  /** The bytes of an ASCII text. */
  function Letters(text: string): (b: Bytes) {
    seq(|text|, i requires 0 <= i < |text| => if text[i] < 128 as char then text[i] as nat else 63)
  }

  lemma LettersAreAscii()
    ensures forall s: Name :: Ascii(s) == Letters(s)
  {
    forall s: Name ensures Ascii(s) == Letters(s) {}
  }

  function Field(name: string, v: Value): (e: Entry) {
    Entry(Letters(name), v)
  }

  /** The fields that are not null, an empty list or an empty map. */
  function Present(fields: seq<Entry>): (m: seq<Entry>) {
    if fields == [] then []
    else if fields[0].value in {Null, Array([]), Dict([])} then Present(fields[1..])
    else [fields[0]] + Present(fields[1..])
  }

  lemma {:induction false} PresentAreKept(fields: seq<Entry>)
    ensures DropAbsent(fields) == Present(fields)
  {
    if fields != [] { PresentAreKept(fields[1..]); }
  }

  function Written(fields: seq<Entry>): (v: Value) {
    Dict(Present(fields))
  }

  lemma RecordWrites(names: seq<Name>, values: seq<Value>, fields: seq<Entry>)
    requires |names| == |values| && Zip(names, values) == fields
    ensures Record(names, values) == Written(fields)
  {
    PresentAreKept(fields);
  }

  function ModeName(mode: P.Mode): (t: Bytes) {
    match mode
    case Full160 => Letters("full160")
    case Short64 => Letters("short64")
    case Short64Hv => Letters("short64_hv")
    case Full160Rateless => Letters("full160_rateless")
  }

  function HintFields(x: StorageHint): (fields: seq<Entry>) {
    [Field("type", Text(x.kind)), Field("uri", Text(x.uri)), Field("content_hash", OptBlob(x.contentHash)),
     Field("metadata", Dict(x.metadata))]
  }

  lemma HintWritten(x: StorageHint)
    ensures x.Wire() == Written(HintFields(x))
  {
    LettersAreAscii();
    hide Written, Record, Ascii, Letters;
    assert Zip(HintNames(), x.Values()) == HintFields(x);
    RecordWrites(HintNames(), x.Values(), HintFields(x));
  }

  function EvidenceFields(x: TrustEvidence): (fields: seq<Entry>) {
    [Field("type", Text(x.kind)), Field("body", Dict(x.body))]
  }

  /** Evidence keeps both fields. */
  lemma EvidenceWritten(x: TrustEvidence)
    ensures x.Wire() == Dict(EvidenceFields(x))
  {
    LettersAreAscii();
    hide DropAbsent, Ascii, Letters;
    assert Zip(EvidenceNames(), x.Values()) == EvidenceFields(x);
  }

  function ReferenceFields(x: Reference): (fields: seq<Entry>) {
    [Field("short_id", Blob(x.shortId)), Field("manifest_key", OptBlob(x.manifestKey)),
     Field("manifest_hash", OptBlob(x.manifestHash)), Field("document_bytes", OptBlob(x.documentBytes)),
     Field("storage_hints", Array(HintWires(x.storageHints))), Field("namespace_id", OptBlob(x.namespaceId)),
     Field("derivation_profile", Text(x.derivation)), Field("created_at", OptText(x.createdAt)),
     Field("metadata", Dict(x.metadata))]
  }

  lemma ReferenceWritten(x: Reference)
    ensures x.Wire() == Written(ReferenceFields(x))
  {
    LettersAreAscii();
    hide Written, Record, Ascii, Letters;
    assert Zip(ReferenceNames(), x.Values()) == ReferenceFields(x);
    RecordWrites(ReferenceNames(), x.Values(), ReferenceFields(x));
  }

  function SetFields(h: Bytes -> Digest, x: CandidateSet): (fields: seq<Entry>) {
    [Field("version", Int(x.version)), Field("route_key", Blob(x.routeKey)), Field("complete", Bool(x.complete)),
     Field("total_available", OptInt(x.totalAvailable)),
     Field("references", Array(ReferenceWires(SortedReferences(h, x.references)))), Field("metadata", Dict(x.metadata))]
  }

  /** A candidate set writes its references in sorted order. */
  lemma SetWritten(h: Bytes -> Digest, x: CandidateSet)
    ensures x.Wire(h) == Written(SetFields(h, x))
  {
    LettersAreAscii();
    hide Written, Record, Ascii, Letters;
    assert Zip(SetNames(), x.Values(h)) == SetFields(h, x);
    RecordWrites(SetNames(), x.Values(h), SetFields(h, x));
  }

  function RegionFields(x: Region): (fields: seq<Entry>) {
    [Field("region_id", Text(x.regionId)), Field("alg_id", Text(x.algId)), Field("commitment", Blob(x.commitment)),
     Field("metadata", Dict(x.metadata))]
  }

  lemma RegionWritten(x: Region)
    ensures x.Wire() == Written(RegionFields(x))
  {
    LettersAreAscii();
    hide Written, Record, Ascii, Letters;
    assert Zip(RegionNames(), x.Values()) == RegionFields(x);
    RecordWrites(RegionNames(), x.Values(), RegionFields(x));
  }

  function ArtifactFields(x: Artifact): (fields: seq<Entry>) {
    [Field("media_type", Text(x.mediaType)), Field("essence_alg_id", Text(x.essenceAlgId)),
     Field("essence_hash", Blob(x.essenceHash)), Field("hash_alg", Text(x.hashAlg)), Field("wm_alg_id", x.wmAlgId),
     Field("strict_byte_hash", OptBlob(x.strictByteHash)), Field("strict_decode_hash", OptBlob(x.strictDecodeHash)),
     Field("region_commitments", Array(RegionWires(x.regions)))]
  }

  lemma ArtifactWritten(x: Artifact)
    ensures x.Wire() == Written(ArtifactFields(x))
  {
    LettersAreAscii();
    hide Written, Record, Ascii, Letters;
    assert Zip(ArtifactNames(), x.Values()) == ArtifactFields(x);
    RecordWrites(ArtifactNames(), x.Values(), ArtifactFields(x));
  }

  function SignatureFields(x: Signature): (fields: seq<Entry>) {
    [Field("kid", Text(x.kid)), Field("alg", Text(x.alg)), Field("sig", Blob(x.sig)), Field("role", Text(x.role)),
     Field("signed_at", OptText(x.signedAt)), Field("certificate_chain", Array(Blobs(x.chain))),
     Field("metadata", Dict(x.metadata))]
  }

  lemma SignatureWritten(x: Signature)
    ensures x.Wire() == Written(SignatureFields(x))
  {
    LettersAreAscii();
    hide Written, Record, Ascii, Letters;
    assert Zip(SignatureNames(), x.Values()) == SignatureFields(x);
    RecordWrites(SignatureNames(), x.Values(), SignatureFields(x));
  }

  function CoreFields(x: Core): (fields: seq<Entry>) {
    [Field("manifest_version", Int(x.version)), Field("artifact", x.artifact.Wire()),
     Field("claims", Array(ClaimWires(x.claims))), Field("created_at", OptText(x.createdAt)), Field("c2pa", x.c2pa),
     Field("encrypted_claims", x.encryptedClaims), Field("extensions", Dict(x.extensions))]
  }

  lemma CoreWritten(x: Core)
    ensures x.Wire() == Written(CoreFields(x))
  {
    LettersAreAscii();
    hide Written, Record, Ascii, Letters;
    assert Zip(CoreNames(), x.Values()) == CoreFields(x);
    RecordWrites(CoreNames(), x.Values(), CoreFields(x));
  }

  function ManifestFields(x: SignedManifest): (fields: seq<Entry>) {
    [Field("core", x.core.Wire()), Field("signatures", Array(SignatureWires(x.signatures)))]
  }

  /** A signed manifest keeps both fields. */
  lemma ManifestWritten(x: SignedManifest)
    ensures x.Wire() == Dict(ManifestFields(x))
  {
    LettersAreAscii();
    hide DropAbsent, Ascii, Letters;
    assert Zip(ManifestNames(), x.Values()) == ManifestFields(x);
  }

  function LocatorFields(x: Locator): (fields: seq<Entry>) {
    [Field("mode", Text(ModeName(x.mode))), Field("value", Blob(x.value)), Field("namespace_id", OptBlob(x.namespaceId)),
     Field("hdc_profile_id", x.hdcProfileId), Field("derivation_profile", Text(x.derivation))]
  }

  /** A locator writes its mode by name. */
  lemma LocatorWritten(x: Locator)
    ensures x.Wire() == Written(LocatorFields(x))
  {
    LettersAreAscii();
    hide Written, Record, Ascii, Letters;
    assert Zip(LocatorNames(), x.Values()) == LocatorFields(x);
    RecordWrites(LocatorNames(), x.Values(), LocatorFields(x));
  }

  function EnvelopeFields(x: Envelope): (fields: seq<Entry>) {
    [Field("manifest", x.manifest.Wire()), Field("locator", x.locator.Wire()),
     Field("storage_hints", Array(HintWires(x.storageHints))),
     Field("trust_evidence", Array(EvidenceWires(x.trustEvidence))), Field("metadata", Dict(x.metadata))]
  }

  lemma EnvelopeWritten(x: Envelope)
    ensures x.Wire() == Written(EnvelopeFields(x))
  {
    LettersAreAscii();
    hide Written, Record, Ascii, Letters;
    assert Zip(EnvelopeNames(), x.Values()) == EnvelopeFields(x);
    RecordWrites(EnvelopeNames(), x.Values(), EnvelopeFields(x));
  }

  /** A claim writes its type, and then the entries of its body that are something, converted. */
  lemma ClaimWritten(x: Claim)
    ensures x.Wire() == Dict([Field("type", Text(x.kind))] + ToEntries(DropNothing(x.body)))
  {
    LettersAreAscii();
    hide Ascii, Letters;
  }
}
