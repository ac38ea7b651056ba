/**
  Documents from elsewhere: whatever bytes a resolver accepts, what they decode to is an object the
  program could have built itself, and from then on its bytes no longer change.
  */
module Received {
  import opened Wrappers
  import opened Digits
  import opened Canonical
  import opened Hashes
  import opened Schema
  import opened FieldNames
  import opened Objects
  import opened Hints
  import opened Manifest
  import opened Documents
  import P = Payload

  // ----- fields -----

  lemma {:induction false} GetMember(m: seq<Entry>, name: Bytes)
    ensures Get(m, name).Some? ==> Entry(name, Get(m, name).value) in m
  {
    if m != [] && m[0].name != name {
      GetMember(m[1..], name);
      if Get(m[1..], name).Some? { assert Entry(name, Get(m[1..], name).value) in m[1..]; }
    }
  }

  /** A field of a canonical map is canonical. */
  lemma FieldCanonical(utf8: Utf8, m: seq<Entry>, name: Name)
    requires IsCanonical(utf8, Dict(m))
    ensures Named(m, name).Some? ==> IsCanonical(utf8, Named(m, name).value)
  {
    GetMember(m, Ascii(name));
  }

  lemma FieldsCanonical(utf8: Utf8, m: seq<Entry>)
    requires IsCanonical(utf8, Dict(m))
    ensures forall name :: Named(m, name).Some? ==> IsCanonical(utf8, Named(m, name).value)
  {
    hide IsCanonical, Named;
    forall name ensures Named(m, name).Some? ==> IsCanonical(utf8, Named(m, name).value) { FieldCanonical(utf8, m, name); }
  }

  lemma {:induction false} AllDecoded<T>(decode: Value -> Result<T>, items: seq<Value>)
    requires DecodeAll(decode, items).Ok?
    ensures var xs := DecodeAll(decode, items).value;
      |xs| == |items| && forall i :: 0 <= i < |xs| ==> decode(items[i]) == Ok(xs[i])
  {
    if items != [] { AllDecoded(decode, items[1..]); }
  }

  lemma LeavesCanonical(utf8: Utf8)
    ensures IsCanonical(utf8, Null) && IsCanonical(utf8, Dict([])) && IsCanonical(utf8, Array([]))
  {
  }

  lemma TextCanonical(utf8: Utf8, v: Value)
    requires IsCanonical(utf8, v)
    ensures v.Text? ==> utf8(v.utf8)
    ensures v.Array? ==> forall x <- v.items :: IsCanonical(utf8, x)
  {
  }

  // ----- records -----

  lemma RegionDecoded(utf8: Utf8, v: Value, x: Region)
    requires IsCanonical(utf8, v) && RegionFromPrimitive(v) == Ok(x)
    ensures x.Valid(utf8) && x.Sound()
  {
    hide IsCanonical, Named, REGION_ID, ALG_ID, COMMITMENT, METADATA;
    LeavesCanonical(utf8);
    FieldsCanonical(utf8, v.entries);
    TextCanonical(utf8, Named(v.entries, REGION_ID).value);
    TextCanonical(utf8, Named(v.entries, ALG_ID).value);
  }

  lemma HintDecoded(utf8: Utf8, v: Value, x: StorageHint)
    requires IsCanonical(utf8, v) && HintFromPrimitive(v) == Ok(x)
    ensures x.Valid(utf8) && x.Sound()
  {
    hide IsCanonical, Named, TYPE, URI, CONTENT_HASH, METADATA;
    LeavesCanonical(utf8);
    FieldsCanonical(utf8, v.entries);
    TextCanonical(utf8, Named(v.entries, TYPE).value);
    TextCanonical(utf8, Named(v.entries, URI).value);
  }

  lemma EvidenceDecoded(utf8: Utf8, v: Value, x: TrustEvidence)
    requires IsCanonical(utf8, v) && EvidenceFromPrimitive(v) == Ok(x)
    ensures x.Valid(utf8) && x.Sound()
  {
    hide IsCanonical, Named, TYPE, BODY;
    FieldsCanonical(utf8, v.entries);
    TextCanonical(utf8, Named(v.entries, TYPE).value);
  }

  lemma SignatureDecoded(utf8: Utf8, v: Value, x: Signature)
    requires IsCanonical(utf8, v) && SignatureFromPrimitive(v) == Ok(x)
    ensures x.Valid(utf8) && x.Sound()
  {
    hide IsCanonical, Named, DecodeAll, ItemsOr, KID, ALG, SIG, ROLE, SIGNED_AT, CERTIFICATE_CHAIN, METADATA;
    var m := v.entries;
    LeavesCanonical(utf8);
    FieldsCanonical(utf8, m);
    TextCanonical(utf8, Named(m, KID).value);
    TextCanonical(utf8, Named(m, ALG).value);
    TextCanonical(utf8, Named(m, ROLE).value);
    if Named(m, SIGNED_AT).Some? { TextCanonical(utf8, Named(m, SIGNED_AT).value); }
  }

  /** A decoded claim holds primitives only, so nothing in it is masked. */
  lemma ClaimDecoded(utf8: Utf8, v: Value, x: Claim)
    requires IsCanonical(utf8, v) && ClaimFromPrimitive(v) == Ok(x)
    ensures x.Valid(utf8) && x.Plain()
  {
    hide Named, TYPE, Ascii, IsCanonical, Without, AscendingNames;
    var m := v.entries;
    FieldsCanonical(utf8, m);
    TextCanonical(utf8, Named(m, TYPE).value);
    BodyDecoded(utf8, m, Ascii(TYPE), x.body);
  }

  lemma BodyDecoded(utf8: Utf8, m: seq<Entry>, name: Bytes, body: seq<Item>)
    requires IsCanonical(utf8, Dict(m)) && body == FromEntries(Without(m, name))
    ensures IsPrimitive(utf8, Dict(ToEntries(body))) && forall e <- body :: e.name != name && !Masked(e.content)
  {
    var rest := Without(m, name);
    hide Without, Masked, ToPrimitive, FromPrimitive, IsPrimitive, IsCanonical;
    forall i | 0 <= i < |rest| ensures ToEntries(body)[i] == rest[i] { Converts(rest[i].value); }
    assert ToEntries(body) == rest;
    WithoutCanonical(utf8, m, name);
    CanonicalIsNormal(utf8, Dict(rest));
    forall i | 0 <= i < |rest| ensures body[i].name != name && !Masked(body[i].content) {
      assert rest[i] in rest;
      NothingMasked(rest[i].value);
    }
  }

  lemma WithoutCanonical(utf8: Utf8, m: seq<Entry>, name: Bytes)
    requires IsCanonical(utf8, Dict(m))
    ensures IsCanonical(utf8, Dict(Without(m, name)))
  {
    WithoutAscending(m, name);
    hide AscendingNames;
  }

  lemma NothingMasked(v: Value)
    ensures !Masked(FromPrimitive(v))
  {
  }

  lemma ArtifactDecoded(utf8: Utf8, v: Value, x: Artifact)
    requires TakesAscii(utf8) && IsCanonical(utf8, v) && ArtifactFromPrimitive(v) == Ok(x)
    ensures x.Valid(utf8) && x.Sound()
  {
    DefaultTexts(utf8);
    hide IsCanonical, Named, DecodeAll, Ascii, ItemsOr, OptDigest, RegionFromPrimitive, Region.Valid, Region.Sound, TakesAscii, MEDIA_TYPE, ESSENCE_ALG_ID,
      ESSENCE_HASH, HASH_ALG, WM_ALG_ID, STRICT_BYTE_HASH, STRICT_DECODE_HASH, REGION_COMMITMENTS;
    var m := v.entries;
    LeavesCanonical(utf8);
    FieldsCanonical(utf8, m);
    TextCanonical(utf8, Named(m, MEDIA_TYPE).value);
    TextCanonical(utf8, Named(m, ESSENCE_ALG_ID).value);
    if Named(m, HASH_ALG).Some? { TextCanonical(utf8, Named(m, HASH_ALG).value); }
    RegionsDecoded(utf8, Named(m, REGION_COMMITMENTS), x.regions);
    DigestsFit(Named(m, STRICT_BYTE_HASH));
    DigestsFit(Named(m, STRICT_DECODE_HASH));
  }

  lemma RegionsDecoded(utf8: Utf8, v: Option<Value>, xs: seq<Region>)
    requires (v.Some? ==> IsCanonical(utf8, v.value)) && ItemsOr(v).Ok? && DecodeAll(RegionFromPrimitive, ItemsOr(v).value) == Ok(xs)
    ensures forall x <- xs :: x.Valid(utf8) && x.Sound()
  {
    hide IsCanonical, DecodeAll, RegionFromPrimitive, Region.Valid, Region.Sound;
    if v.Some? { TextCanonical(utf8, v.value); }
    var items := ItemsOr(v).value;
    AllDecoded(RegionFromPrimitive, items);
    forall i | 0 <= i < |xs| ensures xs[i].Valid(utf8) && xs[i].Sound() {
      assert items[i] in items;
      RegionDecoded(utf8, items[i], xs[i]);
    }
  }

  lemma DigestsFit(v: Option<Value>)
    ensures OptDigest(v).Ok? ==> OptDigestValid(OptDigest(v).value)
  {
  }

  /** The texts that stand for missing fields. */
  lemma DefaultTexts(utf8: Utf8)
    requires TakesAscii(utf8)
    ensures utf8(Ascii("sha256")) && Ascii("sha256") != [] && utf8(Ascii(HASH_TRUNCATED)) && Ascii(HASH_TRUNCATED) != []
    ensures utf8(Ascii(H160)) && Ascii(H160) != []
  {
    assert |Ascii("sha256")| == |"sha256"| && |Ascii(HASH_TRUNCATED)| == |HASH_TRUNCATED| && |Ascii(H160)| == |H160|;
    hide Ascii;
  }

  lemma CoreDecoded(utf8: Utf8, v: Value, x: Core)
    requires TakesAscii(utf8) && IsCanonical(utf8, v) && CoreFromPrimitive(v) == Ok(x)
    ensures x.Valid(utf8) && x.Sound() && x.Plain()
  {
    hide IsCanonical, Named, DecodeAll, ClaimFromPrimitive, Claim.Valid, Claim.Plain, ArtifactFromPrimitive, Artifact.Valid,
      Artifact.Sound, TakesAscii, MANIFEST_VERSION, ARTIFACT, CLAIMS, CREATED_AT, C2PA, ENCRYPTED_CLAIMS, EXTENSIONS;
    var m := v.entries;
    LeavesCanonical(utf8);
    FieldsCanonical(utf8, m);
    ArtifactDecoded(utf8, AnyOf(Named(m, ARTIFACT)), x.artifact);
    if Named(m, CREATED_AT).Some? { TextCanonical(utf8, Named(m, CREATED_AT).value); }
    var items := ItemsOr(Named(m, CLAIMS)).value;
    if Named(m, CLAIMS).Some? { TextCanonical(utf8, Named(m, CLAIMS).value); }
    AllDecoded(ClaimFromPrimitive, items);
    forall i | 0 <= i < |x.claims| ensures x.claims[i].Valid(utf8) && x.claims[i].Plain() {
      assert items[i] in items;
      ClaimDecoded(utf8, items[i], x.claims[i]);
    }
  }

  lemma LocatorDecoded(utf8: Utf8, v: Value, x: Locator)
    requires TakesAscii(utf8) && IsCanonical(utf8, v) && LocatorFromPrimitive(v) == Ok(x)
    ensures x.Valid(utf8) && x.Sound()
  {
    DefaultTexts(utf8);
    hide IsCanonical, Named, Ascii, ModeOf, BytesOf, TakesAscii, HASH_TRUNCATED, MODE, VALUE, NAMESPACE_ID, HDC_PROFILE_ID,
      DERIVATION_PROFILE;
    var m := v.entries;
    LeavesCanonical(utf8);
    FieldsCanonical(utf8, m);
    if Named(m, DERIVATION_PROFILE).Some? { TextCanonical(utf8, Named(m, DERIVATION_PROFILE).value); }
  }

  lemma HintsDecoded(utf8: Utf8, v: Option<Value>, xs: seq<StorageHint>)
    requires (v.Some? ==> IsCanonical(utf8, v.value)) && ItemsOr(v).Ok? && DecodeAll(HintFromPrimitive, ItemsOr(v).value) == Ok(xs)
    ensures AllSound(xs) && forall x <- xs :: x.Valid(utf8)
  {
    hide IsCanonical, DecodeAll, HintFromPrimitive, StorageHint.Valid, StorageHint.Sound;
    if v.Some? { TextCanonical(utf8, v.value); }
    var items := ItemsOr(v).value;
    AllDecoded(HintFromPrimitive, items);
    forall i | 0 <= i < |xs| ensures xs[i].Valid(utf8) && xs[i].Sound() {
      assert items[i] in items;
      HintDecoded(utf8, items[i], xs[i]);
    }
  }

  lemma EvidenceListDecoded(utf8: Utf8, v: Option<Value>, xs: seq<TrustEvidence>)
    requires (v.Some? ==> IsCanonical(utf8, v.value)) && ItemsOr(v).Ok? && DecodeAll(EvidenceFromPrimitive, ItemsOr(v).value) == Ok(xs)
    ensures AllTyped(xs) && forall x <- xs :: x.Valid(utf8)
  {
    hide IsCanonical, DecodeAll, EvidenceFromPrimitive, TrustEvidence.Valid, TrustEvidence.Sound;
    if v.Some? { TextCanonical(utf8, v.value); }
    var items := ItemsOr(v).value;
    AllDecoded(EvidenceFromPrimitive, items);
    forall i | 0 <= i < |xs| ensures xs[i].Valid(utf8) && xs[i].Sound() {
      assert items[i] in items;
      EvidenceDecoded(utf8, items[i], xs[i]);
    }
  }

  lemma SignaturesDecoded(utf8: Utf8, v: Option<Value>, xs: seq<Signature>)
    requires (v.Some? ==> IsCanonical(utf8, v.value)) && ItemsOr(v).Ok? && DecodeAll(SignatureFromPrimitive, ItemsOr(v).value) == Ok(xs)
    ensures SoundSignatures(xs) && forall x <- xs :: x.Valid(utf8)
  {
    hide IsCanonical, DecodeAll, SignatureFromPrimitive, Signature.Valid, Signature.Sound;
    if v.Some? { TextCanonical(utf8, v.value); }
    var items := ItemsOr(v).value;
    AllDecoded(SignatureFromPrimitive, items);
    forall i | 0 <= i < |xs| ensures xs[i].Valid(utf8) && xs[i].Sound() {
      assert items[i] in items;
      SignatureDecoded(utf8, items[i], xs[i]);
    }
  }

  /** A decoded manifest could have been built: its parts are well formed and its signatures sorted. */
  lemma ManifestDecoded(utf8: Utf8, v: Value, x: SignedManifest)
    requires TakesAscii(utf8) && IsCanonical(utf8, v) && SignedManifestFromPrimitive(v) == Ok(x)
    ensures ValidParts(utf8, x.core, x.signatures) && MakeSigned(x.core, x.signatures) == Ok(x)
    ensures x.Sound() && x.core.Plain()
  {
    hide IsCanonical, Named, DecodeAll, SignatureFromPrimitive, Signature.Valid, Signature.Sound, CoreFromPrimitive, Core.Valid,
      Core.Sound, Core.Plain, TakesAscii, MakeSigned, CORE, SIGNATURES;
    var m := v.entries;
    LeavesCanonical(utf8);
    FieldsCanonical(utf8, m);
    var core := CoreFromPrimitive(AnyOf(Named(m, CORE))).value;
    var signatures := DecodeAll(SignatureFromPrimitive, ItemsOr(Named(m, SIGNATURES)).value).value;
    CoreDecoded(utf8, AnyOf(Named(m, CORE)), core);
    SignaturesDecoded(utf8, Named(m, SIGNATURES), signatures);
    MadeSigned(core, signatures);
  }

  /** What missing fields stand for. */
  lemma MissingFields(m: seq<Entry>)
    ensures Named(m, DERIVATION_PROFILE).None? && LocatorFromPrimitive(Dict(m)).Ok? ==>
      LocatorFromPrimitive(Dict(m)).value.derivation == Ascii("hash_truncated")
    ensures Named(m, HASH_ALG).None? && ArtifactFromPrimitive(Dict(m)).Ok? ==>
      ArtifactFromPrimitive(Dict(m)).value.hashAlg == Ascii("sha256")
  {
    hide Named, DecodeAll, ModeOf, Ascii;
  }

  // ----- documents -----

  lemma EnvelopeDecoded(utf8: Utf8, a: Addressing, m: seq<Entry>, e: Envelope)
    requires TakesAscii(utf8) && IsCanonical(utf8, Dict(m)) && EnvelopeFromPrimitive(a, m) == Ok(e)
    ensures e.Valid(utf8) && e.Sound() && e.manifest.core.Plain() && MakeEnvelope(a, e) == Ok(e)
  {
    hide IsCanonical, Named, DecodeAll, HintFromPrimitive, EvidenceFromPrimitive, SignedManifestFromPrimitive, LocatorFromPrimitive,
      StorageHint.Valid, TrustEvidence.Valid, ValidParts, MakeSigned, SignedManifest.Sound, Core.Plain, Locator.Valid, Locator.Sound,
      Locator.Checked, Locator.Matches, SignedManifest.CanonicalBytes, AllSound, AllTyped, TakesAscii, MANIFEST, LOCATOR,
      STORAGE_HINTS, TRUST_EVIDENCE, METADATA;
    LeavesCanonical(utf8);
    FieldsCanonical(utf8, m);
    ManifestDecoded(utf8, AnyOf(Named(m, MANIFEST)), e.manifest);
    LocatorDecoded(utf8, AnyOf(Named(m, LOCATOR)), e.locator);
    HintsDecoded(utf8, Named(m, STORAGE_HINTS), e.storageHints);
    EvidenceListDecoded(utf8, Named(m, TRUST_EVIDENCE), e.trustEvidence);
  }

  lemma BareDecoded(utf8: Utf8, a: Addressing, v: Value, e: Envelope)
    requires TakesAscii(utf8) && IsCanonical(utf8, v) && forall b: Bytes :: |a.h160(b)| == 20
    requires SignedManifestFromPrimitive(v).Ok? && Wrap(a, SignedManifestFromPrimitive(v).value) == Ok(e)
    ensures e.Valid(utf8) && e.Sound() && e.manifest.core.Plain() && MakeEnvelope(a, e) == Ok(e)
  {
    hide IsCanonical, SignedManifestFromPrimitive, ValidParts, MakeSigned, SignedManifest.Sound, Core.Plain,
      SignedManifest.CanonicalBytes, Ascii, H160, HASH_TRUNCATED;
    DefaultTexts(utf8);
    LeavesCanonical(utf8);
    ManifestDecoded(utf8, v, e.manifest);
    hide TakesAscii;
  }

  /**
    Whatever document is accepted, it decodes to an envelope that is well formed, whose texts are
    all there and whose locator matches.  If that envelope has an encoding, decoding it gives the
    same manifest bytes, so that the address no longer changes.
    */
  lemma ReceivedDocument(utf8: Utf8, a: Addressing, data: Bytes, e: Envelope)
    requires TakesAscii(utf8) && (forall b: Bytes :: |a.h160(b)| == 20) && DecodeDocument(utf8, a, data) == Ok(e)
    ensures e.Valid(utf8) && e.Sound() && MakeEnvelope(a, e) == Ok(e)
    ensures e.CanonicalBytes().Ok? ==>
      && DecodeDocument(utf8, a, e.CanonicalBytes().value) == Ok(e.Canon())
      && e.Canon().manifest.CanonicalBytes() == e.manifest.CanonicalBytes()
  {
    hide IsCanonical, Named, EnvelopeFromPrimitive, SignedManifestFromPrimitive, Wrap, Envelope.Valid, Envelope.Sound,
      MakeEnvelope, Core.Plain, Loads, Encode, Envelope.CanonicalBytes, SignedManifest.CanonicalBytes, Envelope.Canon, MANIFEST,
      LOCATOR, CORE, SIGNATURES, TakesAscii;
    var v := Loads(utf8, data, true).value;
    LoadsIffEncoding(utf8, data, true, v);
    if Named(v.entries, MANIFEST).Some? && Named(v.entries, LOCATOR).Some? {
      EnvelopeDecoded(utf8, a, v.entries, e);
    } else {
      BareDecoded(utf8, a, v, e);
    }
    hide DecodeDocument;
    if e.CanonicalBytes().Ok? {
      EnvelopedDocument(utf8, a, e);
      ConstructedDocument(utf8, a, e);
    }
  }
}
