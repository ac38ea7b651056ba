/**
  Locators, envelopes and the documents a resolver gets: a bare manifest or an enveloped one is
  brought to an envelope whose locator matches the manifest's bytes.
  */
module Documents {
  import opened Wrappers
  import opened Digits
  import opened Canonical
  import opened Hashes
  import opened Schema
  import opened FieldNames
  import opened Hints
  import opened Manifest
  import P = Payload

  // ----- locators -----

  /** The two addressing hashes of manifest bytes. */
  datatype Addressing = Addressing(h160: Bytes -> Bytes, trunc64: Bytes -> Bytes)

  const FULL160: Name := "full160"
  const SHORT64: Name := "short64"
  const SHORT64_HV: Name := "short64_hv"
  const FULL160_RATELESS: Name := "full160_rateless"
  const H160: Name := "h160"

  function ModeText(mode: P.Mode): (t: Bytes) {
    match mode
    case Full160 => Ascii(FULL160)
    case Short64 => Ascii(SHORT64)
    case Short64Hv => Ascii(SHORT64_HV)
    case Full160Rateless => Ascii(FULL160_RATELESS)
  }

  function ModeOf(t: Bytes): (mode: Result<P.Mode>) {
    if t == ModeText(P.Full160) then Ok(P.Full160)
    else if t == ModeText(P.Short64) then Ok(P.Short64)
    else if t == ModeText(P.Short64Hv) then Ok(P.Short64Hv)
    else if t == ModeText(P.Full160Rateless) then Ok(P.Full160Rateless)
    else Err
  }

  lemma ModeTexts(mode: P.Mode)
    ensures ModeOf(ModeText(mode)) == Ok(mode) && ModeText(mode) != []
  {
    assert Tag(FULL160) == (7, 'f', '0') && Tag(SHORT64) == (7, 's', '4') && Tag(SHORT64_HV) == (10, 's', 'v');
    assert Tag(FULL160_RATELESS) == (16, 'f', 's');
    hide Ascii, FULL160, SHORT64, SHORT64_HV, FULL160_RATELESS;
    if ModeText(P.Full160) == ModeText(P.Short64) { TagsTell(FULL160, SHORT64); }
    assert |ModeText(P.Short64Hv)| == 10 && |ModeText(P.Full160Rateless)| == 16;
  }

  datatype Locator = Locator(
    mode: P.Mode, value: Bytes, namespaceId: Option<Bytes>, hdcProfileId: Value, derivation: Bytes)
  {
    ghost predicate Valid(utf8: Utf8) {
      && |value| == mode.PointerBytes() && (namespaceId.Some? ==> 2 <= |namespaceId.value| <= 4)
      && IsCanonical(utf8, hdcProfileId) && utf8(derivation)
    }

    /** What the decoder demands. */
    predicate Sound() {
      derivation != []
    }

    function Values(): (v: seq<Value>)
      ensures |v| == 5
    {
      [Text(ModeText(mode)), Blob(value), OptBlob(namespaceId), hdcProfileId, Text(derivation)]
    }

    function Wire(): (v: Value) {
      Record(LocatorNames(), Values())
    }

    function Canon(): (x: Locator) {
      this.(hdcProfileId := Settled(hdcProfileId))
    }

    /** A registry-assigned short id is not checked against the bytes. */
    predicate Checked() {
      mode.PointerBytes() == 20 || derivation == Ascii(HASH_TRUNCATED)
    }

    /** The pointer derived from manifest bytes for this mode. */
    function PointerTo(a: Addressing, addressed: Bytes): (p: Bytes) {
      if mode.PointerBytes() == 20 then a.h160(addressed) else a.trunc64(addressed)
    }

    function PointerOf(a: Addressing, addressed: Result<Bytes>): (p: Result<Bytes>) {
      var bytes :- addressed;
      Ok(PointerTo(a, bytes))
    }

    predicate Matches(a: Addressing, addressed: Bytes) {
      Checked() ==> value == PointerTo(a, addressed)
    }
  }

  function LocatorNames(): (n: seq<Name>)
    ensures |n| == 5
  {
    [MODE, VALUE, NAMESPACE_ID, HDC_PROFILE_ID, DERIVATION_PROFILE]
  }

  lemma LocatorNamesTell()
    ensures Telling(LocatorNames())
  {
    var n := LocatorNames();
    assert Tag(n[0]) == (4, 'm', 'e') && Tag(n[1]) == (5, 'v', 'e') && Tag(n[2]) == (12, 'n', 'd');
    assert Tag(n[3]) == (14, 'h', 'd') && Tag(n[4]) == (18, 'd', 'e');
    hide Tag, LocatorNames;
  }

  function DerivationOf(v: Option<Value>): (r: Result<Bytes>) {
    if v.None? then Ok(Ascii(HASH_TRUNCATED)) else RequireText(v)
  }

  function LocatorFromPrimitive(v: Value): (r: Result<Locator>) {
    if !v.Dict? then Err
    else
      var m := v.entries;
      var text :- RequireText(Named(m, MODE));
      var mode :- ModeOf(text);
      var value :- RequireBlob(Named(m, VALUE));
      if |value| != mode.PointerBytes() then Err
      else
        var ns :- OptId(Named(m, NAMESPACE_ID), 2, 4);
        var derivation :- DerivationOf(Named(m, DERIVATION_PROFILE));
        Ok(Locator(mode, value, ns, AnyOf(Named(m, HDC_PROFILE_ID)), derivation))
  }

  lemma LocatorReads(utf8: Utf8, x: Locator) returns (m: seq<Entry>)
    requires TakesAscii(utf8) && x.Valid(utf8)
    ensures ComesBack(utf8, x.Wire(), Dict(m))
    ensures Reads(m, MODE, Text(ModeText(x.mode))) && Reads(m, VALUE, Blob(x.value))
    ensures Reads(m, NAMESPACE_ID, OptBlob(x.namespaceId)) && Reads(m, HDC_PROFILE_ID, x.hdcProfileId)
    ensures Reads(m, DERIVATION_PROFILE, Text(x.derivation))
  {
    var n, v := LocatorNames(), x.Values();
    assert utf8(ModeText(x.mode));
    hide ComesBack, IsCanonical, Telling, Reads, Record, ModeText, TakesAscii, MODE, VALUE, NAMESPACE_ID, HDC_PROFILE_ID,
      DERIVATION_PROFILE;
    LocatorNamesTell();
    assert ComesBack(utf8, v[0], v[0]) by { LeafComesBack(utf8, Some(ModeText(x.mode)), 0, true); }
    assert ComesBack(utf8, v[1], v[1]) by { LeafComesBack(utf8, Some(x.value), 0, true); }
    assert ComesBack(utf8, v[2], v[2]) by { LeafComesBack(utf8, x.namespaceId, 0, true); }
    assert ComesBack(utf8, v[3], v[3]) by { CanonicalComesBack(utf8, x.hdcProfileId); }
    assert ComesBack(utf8, v[4], v[4]) by { LeafComesBack(utf8, Some(x.derivation), 0, true); }
    m := RecordReads(utf8, n, v, v);
    assert Reads(m, n[0], v[0]) && Reads(m, n[1], v[1]) && Reads(m, n[2], v[2]) && Reads(m, n[3], v[3]) && Reads(m, n[4], v[4]);
  }

  /** A locator reads back, up to an empty profile id, exactly when its derivation profile is not empty. */
  lemma LocatorRoundTrip(utf8: Utf8, x: Locator)
    requires TakesAscii(utf8) && x.Valid(utf8)
    ensures IsPrimitive(utf8, x.Wire()) && !Absent(Normalize(x.Wire()))
    ensures LocatorFromPrimitive(Normalize(x.Wire())) == if x.Sound() then Ok(x.Canon()) else Err
  {
    var m := LocatorReads(utf8, x);
    ReadsNotEmpty(m, VALUE, Blob(x.value));
    ModeTexts(x.mode);
    hide Reads, Named, RequireText, RequireBlob, OptId, AnyOf, ModeOf, ModeText, Settled, P.Mode.PointerBytes, DerivationOf,
      Locator.Wire, IsPrimitive, IsCanonical, Ascii, HASH_TRUNCATED, MODE, VALUE, NAMESPACE_ID, HDC_PROFILE_ID,
      DERIVATION_PROFILE;
    assert RequireText(Named(m, MODE)) == NonEmpty(ModeText(x.mode)) by { ReadsText(m, MODE, ModeText(x.mode), []); }
    assert RequireBlob(Named(m, VALUE)) == Ok(x.value) by { ReadsBlob(m, VALUE, x.value); }
    assert OptId(Named(m, NAMESPACE_ID), 2, 4) == Ok(x.namespaceId) by { ReadsOptId(m, NAMESPACE_ID, x.namespaceId, 2, 4); }
    assert AnyOf(Named(m, HDC_PROFILE_ID)) == Settled(x.hdcProfileId) by { ReadsAny(m, HDC_PROFILE_ID, x.hdcProfileId); }
    assert DerivationOf(Named(m, DERIVATION_PROFILE)) == NonEmpty(x.derivation) by { ReadsDerivation(m, x.derivation); }
  }

  lemma ReadsDerivation(m: seq<Entry>, t: Bytes)
    requires Reads(m, DERIVATION_PROFILE, Text(t))
    ensures DerivationOf(Named(m, DERIVATION_PROFILE)) == NonEmpty(t)
  {
    hide Named, Ascii;
  }

  // ----- envelopes -----

  /** The transport wrapper. */
  datatype Envelope = Envelope(
    manifest: SignedManifest, locator: Locator, storageHints: seq<StorageHint>, trustEvidence: seq<TrustEvidence>,
    metadata: seq<Entry>)
  {
    ghost predicate Valid(utf8: Utf8) {
      && ValidParts(utf8, manifest.core, manifest.signatures) && MakeSigned(manifest.core, manifest.signatures) == Ok(manifest)
      && locator.Valid(utf8) && (forall x <- storageHints :: x.Valid(utf8)) && (forall x <- trustEvidence :: x.Valid(utf8))
      && IsCanonical(utf8, Dict(metadata))
    }

    /** What the decoder demands beyond that: texts that are not empty. */
    predicate Sound() {
      manifest.Sound() && locator.Sound() && AllSound(storageHints) && AllTyped(trustEvidence)
    }

    function Values(): (v: seq<Value>)
      ensures |v| == 5
    {
      [manifest.Wire(), locator.Wire(), Array(HintWires(storageHints)), Array(EvidenceWires(trustEvidence)), Dict(metadata)]
    }

    function Readings(): (v: seq<Value>)
      ensures |v| == 5
    {
      [Normalize(manifest.Wire()), Normalize(locator.Wire()), Array(NormalizeItems(HintWires(storageHints))),
       Array(NormalizeItems(EvidenceWires(trustEvidence))), Dict(metadata)]
    }

    function Wire(): (v: Value) {
      Record(EnvelopeNames(), Values())
    }

    function CanonicalBytes(): (b: Result<Bytes>) {
      Encode(Wire())
    }

    /** The object that comes back. */
    function Canon(): (x: Envelope) {
      this.(manifest := manifest.Canon(), locator := locator.Canon())
    }
  }

  function EnvelopeNames(): (n: seq<Name>)
    ensures |n| == 5
  {
    [MANIFEST, LOCATOR, STORAGE_HINTS, TRUST_EVIDENCE, METADATA]
  }

  lemma EnvelopeNamesTell()
    ensures Telling(EnvelopeNames())
  {
    var n := EnvelopeNames();
    assert Tag(n[0]) == (8, 'm', 't') && Tag(n[1]) == (7, 'l', 'r') && Tag(n[2]) == (13, 's', 's');
    assert Tag(n[3]) == (14, 't', 'e') && Tag(n[4]) == (8, 'm', 'a');
    hide Tag, EnvelopeNames;
  }

  /** The constructor: a locator that is checked has to match the manifest's bytes. */
  function MakeEnvelope(a: Addressing, e: Envelope): (r: Result<Envelope>) {
    if !e.locator.Checked() then Ok(e)
    else
      var addressed :- e.manifest.CanonicalBytes();
      if e.locator.Matches(a, addressed) then Ok(e) else Err
  }

  /**
    An envelope is constructed exactly when a full locator is the 160-bit hash of the manifest's
    bytes, a short one with hash-derived pointer their truncated hash, and any other short one
    whatever it is.
    */
  lemma EnvelopeMade(a: Addressing, e: Envelope)
    ensures MakeEnvelope(a, e).Ok? ==> MakeEnvelope(a, e) == Ok(e)
    ensures e.locator.mode in {P.Full160, P.Full160Rateless} ==>
      (MakeEnvelope(a, e).Ok? <==> e.manifest.CanonicalBytes().Ok? && e.locator.value == a.h160(e.manifest.CanonicalBytes().value))
    ensures e.locator.mode in {P.Short64, P.Short64Hv} && e.locator.derivation == Ascii("hash_truncated") ==>
      (MakeEnvelope(a, e).Ok? <==> e.manifest.CanonicalBytes().Ok? && e.locator.value == a.trunc64(e.manifest.CanonicalBytes().value))
    ensures e.locator.mode in {P.Short64, P.Short64Hv} && e.locator.derivation != Ascii("hash_truncated") ==> MakeEnvelope(a, e).Ok?
  {
    hide Ascii, SignedManifest.CanonicalBytes;
  }

  function EnvelopeFromPrimitive(a: Addressing, m: seq<Entry>): (r: Result<Envelope>) {
    var manifest :- SignedManifestFromPrimitive(AnyOf(Named(m, MANIFEST)));
    var locator :- LocatorFromPrimitive(AnyOf(Named(m, LOCATOR)));
    var hintItems :- ItemsOr(Named(m, STORAGE_HINTS));
    var hints :- DecodeAll(HintFromPrimitive, hintItems);
    var evidenceItems :- ItemsOr(Named(m, TRUST_EVIDENCE));
    var evidence :- DecodeAll(EvidenceFromPrimitive, evidenceItems);
    var metadata :- EntriesOr(Named(m, METADATA));
    MakeEnvelope(a, Envelope(manifest, locator, hints, evidence, metadata))
  }

  /** A bare manifest is wrapped with the locator derived from its bytes. */
  function Wrap(a: Addressing, m: SignedManifest): (r: Result<Envelope>) {
    var addressed :- m.CanonicalBytes();
    MakeEnvelope(a, WrappedBy(m, a.h160(addressed)))
  }

  /** A manifest under a FULL160 locator, without anything else. */
  function WrappedBy(m: SignedManifest, key: Bytes): (e: Envelope) {
    Envelope(m, Locator(P.Full160, key, None, Null, Ascii(H160)), [], [], [])
  }

  /** `decode_manifest_document` */
  function DecodeDocument(utf8: Utf8, a: Addressing, data: Bytes): (r: Result<Envelope>) {
    var v :- Loads(utf8, data, true);
    if !v.Dict? then Err
    else
      var m := v.entries;
      if Named(m, MANIFEST).Some? && Named(m, LOCATOR).Some? then EnvelopeFromPrimitive(a, m)
      else if Named(m, CORE).Some? && Named(m, SIGNATURES).Some? then
        var manifest :- SignedManifestFromPrimitive(v);
        Wrap(a, manifest)
      else Err
  }

  lemma EnvelopeComesBack(utf8: Utf8, x: Envelope)
    requires TakesAscii(utf8) && x.Valid(utf8)
    ensures AllComeBack(utf8, x.Values(), x.Readings())
    ensures !Absent(Normalize(x.manifest.Wire())) && !Absent(Normalize(x.locator.Wire()))
  {
    hide IsPrimitive, IsCanonical, TakesAscii, StorageHint.Valid, TrustEvidence.Valid, HintWires, EvidenceWires,
      NormalizeItems, HintFromPrimitive, EvidenceFromPrimitive, DecodeAll, Locator.Valid, Locator.Wire, Locator.Canon,
      LocatorFromPrimitive, SignedManifest.Wire, SignedManifest.Canon, SignedManifestFromPrimitive, ValidParts, MakeSigned,
      AllSound, AllTyped, Normalize, Named, SIGNATURES, CORE, MANIFEST;
    var v, w := x.Values(), x.Readings();
    assert ComesBack(utf8, v[0], w[0]) && !Absent(Normalize(x.manifest.Wire())) by {
      var r := SignedReads(utf8, x.manifest);
      NamedNotEmpty(r, CORE);
    }
    assert ComesBack(utf8, v[1], w[1]) && !Absent(Normalize(x.locator.Wire())) by { LocatorRoundTrip(utf8, x.locator); }
    hide ComesBack;
    assert ComesBack(utf8, v[2], w[2]) by { HintsRoundTrip(utf8, x.storageHints); }
    assert ComesBack(utf8, v[3], w[3]) by { EvidenceListRoundTrip(utf8, x.trustEvidence); }
    assert ComesBack(utf8, v[4], w[4]) by { CanonicalComesBack(utf8, Dict(x.metadata)); }
    hide Envelope.Values, Envelope.Readings;
  }

  lemma NamedNotEmpty(m: seq<Entry>, name: Name)
    requires Named(m, name).Some?
    ensures !Absent(Dict(m))
  {
  }

  lemma EnvelopeReads(utf8: Utf8, x: Envelope) returns (m: seq<Entry>)
    requires TakesAscii(utf8) && x.Valid(utf8)
    ensures ComesBack(utf8, x.Wire(), Dict(m))
    ensures Reads(m, MANIFEST, Normalize(x.manifest.Wire())) && Reads(m, LOCATOR, Normalize(x.locator.Wire()))
    ensures Reads(m, STORAGE_HINTS, Array(NormalizeItems(HintWires(x.storageHints))))
    ensures Reads(m, TRUST_EVIDENCE, Array(NormalizeItems(EvidenceWires(x.trustEvidence)))) && Reads(m, METADATA, Dict(x.metadata))
  {
    hide Telling, Reads, Record, ComesBack, Envelope.Valid, MANIFEST, LOCATOR, STORAGE_HINTS, TRUST_EVIDENCE, METADATA,
      HintWires, EvidenceWires, NormalizeItems, Normalize, SignedManifest.Wire, Locator.Wire;
    EnvelopeNamesTell();
    EnvelopeComesBack(utf8, x);
    var n, v := EnvelopeNames(), x.Readings();
    m := RecordReads(utf8, n, x.Values(), v);
    assert Reads(m, n[0], v[0]) && Reads(m, n[1], v[1]) && Reads(m, n[2], v[2]) && Reads(m, n[3], v[3]) && Reads(m, n[4], v[4]);
  }

  lemma PresentField(m: seq<Entry>, name: Name, v: Value)
    requires Reads(m, name, v) && !Absent(v)
    ensures Named(m, name).Some? && AnyOf(Named(m, name)) == v
  {
    hide Named;
  }

  lemma EnvelopeFromFields(a: Addressing, m: seq<Entry>, x: Envelope, hints: seq<Value>, evidence: seq<Value>)
    requires SignedManifestFromPrimitive(AnyOf(Named(m, MANIFEST))) == if x.manifest.Sound() then Ok(x.manifest.Canon()) else Err
    requires LocatorFromPrimitive(AnyOf(Named(m, LOCATOR))) == if x.locator.Sound() then Ok(x.locator.Canon()) else Err
    requires ItemsOr(Named(m, STORAGE_HINTS)) == Ok(hints) && ItemsOr(Named(m, TRUST_EVIDENCE)) == Ok(evidence)
    requires DecodeAll(HintFromPrimitive, hints) == if AllSound(x.storageHints) then Ok(x.storageHints) else Err
    requires DecodeAll(EvidenceFromPrimitive, evidence) == if AllTyped(x.trustEvidence) then Ok(x.trustEvidence) else Err
    requires EntriesOr(Named(m, METADATA)) == Ok(x.metadata)
    ensures EnvelopeFromPrimitive(a, m) == if x.Sound() then MakeEnvelope(a, x.Canon()) else Err
  {
    hide SignedManifest.Sound, Locator.Sound, Named, AnyOf, ItemsOr, EntriesOr, SignedManifestFromPrimitive,
      LocatorFromPrimitive, MakeEnvelope, DecodeAll, AllSound, AllTyped, SignedManifest.Canon, Locator.Canon, MANIFEST,
      LOCATOR, STORAGE_HINTS, TRUST_EVIDENCE, METADATA;
  }

  /** What an envelope was written as decodes, if its parts do, to what the constructor makes of them. */
  lemma EnvelopeRoundTrip(utf8: Utf8, a: Addressing, x: Envelope) returns (m: seq<Entry>)
    requires TakesAscii(utf8) && x.Valid(utf8)
    ensures ComesBack(utf8, x.Wire(), Dict(m)) && Named(m, MANIFEST).Some? && Named(m, LOCATOR).Some?
    ensures EnvelopeFromPrimitive(a, m) == if x.Sound() then MakeEnvelope(a, x.Canon()) else Err
  {
    m := EnvelopeReads(utf8, x);
    EnvelopeComesBack(utf8, x);
    hide Reads, Named, AnyOf, ItemsOr, EntriesOr, IsPrimitive, IsCanonical, TakesAscii, StorageHint.Valid,
      TrustEvidence.Valid, HintWires, EvidenceWires, NormalizeItems, AllComeBack, HintFromPrimitive, EvidenceFromPrimitive,
      DecodeAll, Locator.Valid, Locator.Wire, Locator.Canon, LocatorFromPrimitive, SignedManifest.Wire, SignedManifest.Canon,
      SignedManifestFromPrimitive, ValidParts, MakeSigned, AllSound, AllTyped, Normalize, Absent, EnvelopeFromPrimitive,
      Envelope.Canon, Envelope.Sound, Envelope.Wire, MakeEnvelope, MANIFEST, LOCATOR, STORAGE_HINTS, TRUST_EVIDENCE, METADATA;
    var hints, evidence := NormalizeItems(HintWires(x.storageHints)), NormalizeItems(EvidenceWires(x.trustEvidence));
    PresentField(m, MANIFEST, Normalize(x.manifest.Wire()));
    PresentField(m, LOCATOR, Normalize(x.locator.Wire()));
    assert SignedManifestFromPrimitive(AnyOf(Named(m, MANIFEST))) == (if x.manifest.Sound() then Ok(x.manifest.Canon()) else Err) by {
      SignedRoundTrip(utf8, x.manifest.core, x.manifest.signatures);
    }
    assert LocatorFromPrimitive(AnyOf(Named(m, LOCATOR))) == (if x.locator.Sound() then Ok(x.locator.Canon()) else Err) by {
      LocatorRoundTrip(utf8, x.locator);
    }
    assert ItemsOr(Named(m, STORAGE_HINTS)) == Ok(hints) by { ReadsArray(m, STORAGE_HINTS, hints); }
    assert ItemsOr(Named(m, TRUST_EVIDENCE)) == Ok(evidence) by { ReadsArray(m, TRUST_EVIDENCE, evidence); }
    assert EntriesOr(Named(m, METADATA)) == Ok(x.metadata) by { ReadsDict(m, METADATA, x.metadata); }
    HintsRoundTrip(utf8, x.storageHints);
    EvidenceListRoundTrip(utf8, x.trustEvidence);
    EnvelopeFromFields(a, m, x, hints, evidence);
  }

  // ----- documents -----

  /** The manifest of an encodable envelope has an encoding. */
  lemma ManifestEncodes(x: Envelope)
    requires x.CanonicalBytes().Ok?
    ensures x.manifest.CanonicalBytes().Ok?
  {
    hide Encode, Record, Telling, SignedManifest.Wire, Locator.Wire, HintWires, EvidenceWires;
    EnvelopeNamesTell();
    RecordEncodes(EnvelopeNames(), x.Values());
    assert Encode(x.Values()[0]).Ok?;
  }

  lemma EnvelopeManifest(utf8: Utf8, x: Envelope)
    requires x.Valid(utf8)
    ensures ValidParts(utf8, x.manifest.core, x.manifest.signatures)
    ensures MakeSigned(x.manifest.core, x.manifest.signatures) == Ok(x.manifest)
  {
  }

  /**
    An enveloped document decodes exactly when no required text is empty and the locator matches
    the bytes of the manifest that comes back.
    */
  lemma EnvelopedDocument(utf8: Utf8, a: Addressing, x: Envelope)
    requires TakesAscii(utf8) && x.Valid(utf8) && x.CanonicalBytes().Ok?
    ensures x.manifest.CanonicalBytes().Ok? && x.Canon().manifest.CanonicalBytes().Ok?
    ensures DecodeDocument(utf8, a, x.CanonicalBytes().value)
         == if x.Sound() && x.locator.Matches(a, x.Canon().manifest.CanonicalBytes().value) then Ok(x.Canon()) else Err
    ensures x.Canon().manifest.CanonicalBytes() == x.manifest.CanonicalBytes() <==> x.manifest.core.Plain()
  {
    hide Envelope.Valid, Envelope.Sound, Envelope.Wire, Encode, Loads, IsPrimitive, Normalize, Named, EnvelopeFromPrimitive,
      SignedManifest.Wire, SignedManifest.Canon, SignedManifestFromPrimitive, Wrap, MakeSigned, ValidParts, Core.Plain,
      MANIFEST, LOCATOR, Settled, P.Mode.PointerBytes, Ascii, HASH_TRUNCATED;
    ManifestEncodes(x);
    EnvelopeManifest(utf8, x);
    assert ValidParts(utf8, x.manifest.core, x.manifest.signatures);
    SignedSame(utf8, x.manifest);
    var m := EnvelopeRoundTrip(utf8, a, x);
    ValueLoads(utf8, x.Wire());
  }

  /** The locator still fits after the round trip: the bytes are kept, or nothing checks them, or the pointer cannot tell. */
  predicate StillFits(a: Addressing, x: Envelope) {
    || x.manifest.core.Plain() || !x.locator.Checked()
    || x.locator.PointerOf(a, x.manifest.CanonicalBytes()) == x.locator.PointerOf(a, x.Canon().manifest.CanonicalBytes())
  }

  /**
    For an envelope the program could construct: it decodes exactly when no required text is
    empty and, if some claim holds an entry that the drop kept and the conversion emptied, its
    locator is not checked or the two different byte strings have the same pointer.
    */
  lemma ConstructedDocument(utf8: Utf8, a: Addressing, x: Envelope)
    requires TakesAscii(utf8) && x.Valid(utf8) && MakeEnvelope(a, x).Ok? && x.CanonicalBytes().Ok?
    ensures DecodeDocument(utf8, a, x.CanonicalBytes().value) == if x.Sound() && StillFits(a, x) then Ok(x.Canon()) else Err
  {
    hide DecodeDocument, Envelope.Valid, Envelope.Sound, Envelope.Wire, Encode, SignedManifest.Wire, SignedManifest.Canon,
      Core.Plain, Locator.Canon, Locator.Checked, Locator.PointerTo;
    EnvelopedDocument(utf8, a, x);
  }

  /**
    Evidence without a type: whatever envelope it is put into, the program constructs and encodes
    the result but never decodes it.
    */
  lemma EmptyTypeRaises(utf8: Utf8, a: Addressing, x: Envelope)
    requires TakesAscii(utf8) && x.Valid(utf8) && MakeEnvelope(a, x).Ok? && x.CanonicalBytes().Ok?
    ensures var y := x.(trustEvidence := [TrustEvidence([], [])]);
      && y.Valid(utf8) && MakeEnvelope(a, y).Ok? && y.CanonicalBytes().Ok?
      && DecodeDocument(utf8, a, y.CanonicalBytes().value) == Err
  {
    hide DecodeDocument, SignedManifest.Wire, Envelope.Wire, Core.Plain, ValidParts, MakeSigned, StillFits, Locator.Matches,
      Locator.Valid, StorageHint.Valid, IsCanonical, Encode, AllSound;
    var none := TrustEvidence([], []);
    var y := x.(trustEvidence := [none]);
    assert none.Valid(utf8) by { EmptyEvidence(utf8); }
    assert !y.Sound() by { assert none in y.trustEvidence && !none.Sound(); }
    assert y.CanonicalBytes().Ok? by { EvidenceEncodes(x, none); }
    ConstructedDocument(utf8, a, y);
  }

  lemma EmptyEvidence(utf8: Utf8)
    requires TakesAscii(utf8)
    ensures TrustEvidence([], []).Valid(utf8)
  {
    assert Ascii("") == [];
  }

  lemma EvidenceEncodes(x: Envelope, e: TrustEvidence)
    requires x.CanonicalBytes().Ok? && |e.kind| < U64_LIMIT && e.body == []
    ensures x.(trustEvidence := [e]).CanonicalBytes().Ok?
  {
    hide Encode, Record, Telling, Full, SignedManifest.Wire, Locator.Wire, HintWires;
    var v, w := x.(trustEvidence := [e]).Values(), x.Values();
    EnvelopeNamesTell();
    RecordEncodes(EnvelopeNames(), w);
    NamesTell();
    assert Encode(e.Wire()).Ok? by {
      LeafEncodes(e.kind, 0, true);
      assert AllEncoded(e.Values());
      RecordEncodes(EvidenceNames(), e.Values());
    }
    assert Encode(v[3]).Ok? by { ArrayEncodes(EvidenceWires([e])); }
    assert Encode(w[0]).Ok? && Encode(w[1]).Ok? && Encode(w[2]).Ok? && Encode(w[4]).Ok?;
    assert v[0] == w[0] && v[1] == w[1] && v[2] == w[2] && v[4] == w[4];
    hide Envelope.Values;
    RecordEncodes(EnvelopeNames(), v);
  }

  /**
    A bare document decodes exactly when no required text is empty: to an envelope around the
    manifest that comes back, located by the hash of that manifest's bytes.  They are the bytes
    of the document exactly when every claim is plain.
    */
  lemma BareDocument(utf8: Utf8, a: Addressing, core: Core, signatures: seq<Signature>)
    requires ValidParts(utf8, core, signatures) && MakeSigned(core, signatures).Ok?
    requires MakeSigned(core, signatures).value.CanonicalBytes().Ok?
    ensures var m := MakeSigned(core, signatures).value;
      var r := DecodeDocument(utf8, a, m.CanonicalBytes().value);
      && (r.Ok? <==> m.Sound()) && m.Canon().CanonicalBytes().Ok?
      && (r.Ok? ==> r == Ok(WrappedBy(m.Canon(), a.h160(m.Canon().CanonicalBytes().value))))
      && (m.Canon().CanonicalBytes() == m.CanonicalBytes() <==> core.Plain())
  {
    hide ValidParts, SignedManifest.Wire, SignedManifest.Canon, Encode, Loads, IsPrimitive, Normalize, Named,
      EnvelopeFromPrimitive, SignedManifestFromPrimitive, MakeSigned, Core.Plain, CORE, SIGNATURES, MANIFEST, LOCATOR,
      Core.Valid, Signature.Valid, Ascii, H160, HASH_TRUNCATED;
    var m := MakeSigned(core, signatures).value;
    assert m.core == core by { MadeSigned(core, signatures); }
    SignedRoundTrip(utf8, core, signatures);
    SignedSame(utf8, m);
    var r := SignedReads(utf8, m);
    ValueLoads(utf8, m.Wire());
  }

  /**
    Stored bare or in an envelope, a manifest comes back the same wherever both decode, with the
    bytes it was addressed by exactly when every claim is plain.
    */
  lemma DocumentsNormalise(utf8: Utf8, a: Addressing, x: Envelope)
    requires TakesAscii(utf8) && x.Valid(utf8) && MakeEnvelope(a, x).Ok? && x.CanonicalBytes().Ok?
    ensures x.manifest.CanonicalBytes().Ok?
    ensures var bare := DecodeDocument(utf8, a, x.manifest.CanonicalBytes().value);
      && (bare.Ok? <==> x.manifest.Sound()) && (bare.Ok? ==> bare.value.manifest == x.Canon().manifest)
      && (x.Canon().manifest.CanonicalBytes() == x.manifest.CanonicalBytes() <==> x.manifest.core.Plain())
    ensures var wrapped := DecodeDocument(utf8, a, x.CanonicalBytes().value);
      && (wrapped.Ok? <==> x.Sound() && StillFits(a, x)) && (wrapped.Ok? ==> wrapped.value.manifest == x.Canon().manifest)
  {
    hide Encode, DecodeDocument, SignedManifest.Wire, SignedManifest.Canon, Envelope.Wire, Envelope.Sound, Envelope.Valid,
      Locator.Canon, ValidParts, MakeSigned, Core.Plain, StillFits;
    ManifestEncodes(x);
    EnvelopeManifest(utf8, x);
    BareDocument(utf8, a, x.manifest.core, x.manifest.signatures);
    ConstructedDocument(utf8, a, x);
  }

  // ----- an envelope with evidence that is not read back -----

  lemma LocatorEncodes(x: Locator)
    requires |x.value| < U64_LIMIT && x.namespaceId == None && x.hdcProfileId == Null && |x.derivation| < U64_LIMIT
    ensures Encode(x.Wire()).Ok?
  {
    hide Encode, Record, Telling, ModeText;
    var v := x.Values();
    assert Encode(v[0]).Ok? by { ModeFits(x.mode); LeafEncodes(ModeText(x.mode), 0, true); }
    assert Encode(v[1]).Ok? by { LeafEncodes(x.value, 0, true); }
    assert Encode(v[2]).Ok? && Encode(v[3]).Ok? by { LeafEncodes([], 0, true); }
    assert Encode(v[4]).Ok? by { LeafEncodes(x.derivation, 0, true); }
    hide Locator.Values;
    LocatorNamesTell();
    RecordEncodes(LocatorNames(), v);
  }

  lemma ModeFits(mode: P.Mode)
    ensures |ModeText(mode)| < 100
  {
    assert |FULL160| == |SHORT64| == 7 && |SHORT64_HV| == 10 && |FULL160_RATELESS| == 16;
    hide Ascii, FULL160, SHORT64, SHORT64_HV, FULL160_RATELESS;
  }

  lemma SmallEnvelopeEncodes(x: Envelope)
    requires x.manifest.CanonicalBytes().Ok? && Encode(x.locator.Wire()).Ok?
    requires x.storageHints == [] && x.trustEvidence == [] && x.metadata == []
    ensures x.CanonicalBytes().Ok?
  {
    hide Encode, Record, Telling, SignedManifest.Wire, Locator.Wire;
    var v := x.Values();
    assert HintWires([]) == [] && EvidenceWires([]) == [];
    assert Encode(v[0]).Ok? && Encode(v[1]).Ok?;
    assert Encode(v[2]).Ok? && Encode(v[3]).Ok? && Encode(v[4]).Ok? by { LeafEncodes([], 0, true); }
    hide Envelope.Values;
    EnvelopeNamesTell();
    RecordEncodes(EnvelopeNames(), v);
  }

  /** A manifest that encodes can be wrapped, and its envelope encodes. */
  lemma WrappedEncodes(m: SignedManifest, key: Bytes)
    requires m.CanonicalBytes().Ok? && |key| == 20
    ensures WrappedBy(m, key).CanonicalBytes().Ok?
  {
    assert |Ascii(H160)| == |H160| == 4;
    hide Encode, SignedManifest.CanonicalBytes, Envelope.CanonicalBytes, Locator.Wire, Ascii, H160;
    LocatorEncodes(WrappedBy(m, key).locator);
    SmallEnvelopeEncodes(WrappedBy(m, key));
  }

  lemma WrappedValid(utf8: Utf8, a: Addressing, core: Core, signatures: seq<Signature>)
    requires ValidParts(utf8, core, signatures) && MakeSigned(core, signatures).Ok?
    requires MakeSigned(core, signatures).value.CanonicalBytes().Ok?
    requires |a.h160(MakeSigned(core, signatures).value.CanonicalBytes().value)| == 20
    ensures var m := MakeSigned(core, signatures).value;
      var x := WrappedBy(m, a.h160(m.CanonicalBytes().value));
      x.Valid(utf8) && MakeEnvelope(a, x) == Ok(x)
  {
    hide Core.Valid, Signature.Valid, SignedManifest.CanonicalBytes, MakeSigned, Ascii, H160, HASH_TRUNCATED;
    MadeSigned(core, signatures);
    assert utf8(Ascii(H160)) by { TextOf(utf8, H160); }
    hide TakesAscii;
  }

  lemma TextOf(utf8: Utf8, s: Name)
    requires TakesAscii(utf8)
    ensures utf8(Ascii(s))
  {
  }

  /** There are such envelopes: one is constructed and encodes, and with evidence of empty type no longer decodes. */
  lemma SomeEnvelopeRaises(utf8: Utf8, a: Addressing) returns (x: Envelope)
    requires TakesAscii(utf8) && forall b: Bytes :: |a.h160(b)| == 20
    ensures x.Valid(utf8) && MakeEnvelope(a, x).Ok? && x.CanonicalBytes().Ok?
    ensures var y := x.(trustEvidence := [TrustEvidence([], [])]);
      y.CanonicalBytes().Ok? && DecodeDocument(utf8, a, y.CanonicalBytes().value) == Err
  {
    hide Envelope.Valid, MakeEnvelope, DecodeDocument, ValidParts, MakeSigned, TupleCore, SomeSignature, SignedManifest.CanonicalBytes,
      Envelope.CanonicalBytes, WrappedBy, Core.Valid, Signature.Valid, SignedManifestFromBytes;
    EmptyTupleChangesBytes(utf8);
    var m := MakeSigned(TupleCore(), [SomeSignature()]).value;
    x := WrappedBy(m, a.h160(m.CanonicalBytes().value));
    WrappedValid(utf8, a, TupleCore(), [SomeSignature()]);
    WrappedEncodes(m, a.h160(m.CanonicalBytes().value));
    EmptyTypeRaises(utf8, a, x);
  }
}
