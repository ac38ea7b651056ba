/** SHORT64 index references: the rows of a route bucket. */
module References {
  import opened Wrappers
  import opened Digits
  import opened Canonical
  import opened Hashes
  import opened Schema
  import opened FieldNames
  import opened Hints

  function ReferenceNames(): (n: seq<Name>)
    ensures |n| == 9
  {
    [SHORT_ID, MANIFEST_KEY, MANIFEST_HASH, DOCUMENT_BYTES, STORAGE_HINTS, NAMESPACE_ID, DERIVATION_PROFILE, CREATED_AT,
     METADATA]
  }

  lemma ReferenceNamesTell()
    ensures Telling(ReferenceNames())
  {
    var n := ReferenceNames();
    assert Tag(n[0]) == (8, 's', 'd') && Tag(n[1]) == (12, 'm', 'y') && Tag(n[2]) == (13, 'm', 'h');
    assert Tag(n[3]) == (14, 'd', 's') && Tag(n[4]) == (13, 's', 's') && Tag(n[5]) == (12, 'n', 'd');
    assert Tag(n[6]) == (18, 'd', 'e') && Tag(n[7]) == (10, 'c', 't') && Tag(n[8]) == (8, 'm', 'a');
    hide Tag, ReferenceNames;
  }

  /**
    One row of a bucket.  Dates are their text; metadata is a canonical value, which stands for
    every Python value that converts to it.
    */
  datatype Reference = Reference(
    shortId: Bytes, manifestKey: Option<Bytes>, manifestHash: Option<Bytes>, documentBytes: Option<Bytes>,
    storageHints: seq<StorageHint>, namespaceId: Option<Bytes>, derivation: Bytes, createdAt: Option<Bytes>, metadata: seq<Entry>)
  {
    /** What the constructor and the types of the fields guarantee. */
    ghost predicate Valid(utf8: Utf8) {
      && WellFormed()
      && (forall x <- storageHints :: x.Valid(utf8)) && IsCanonical(utf8, Dict(metadata))
      && (createdAt.Some? ==> utf8(createdAt.value))
    }

    predicate WellFormed() {
      && |shortId| == 8
      && (manifestKey.Some? ==> |manifestKey.value| == 20)
      && (manifestHash.Some? ==> |manifestHash.value| == 32)
      && (namespaceId.Some? ==> 2 <= |namespaceId.value| <= 4)
      && (derivation == Ascii(HASH_TRUNCATED) || derivation == Ascii(NAMESPACED_REGISTRY))
      && (documentBytes.Some? || manifestKey.Some? || storageHints != [])
    }

    /** What the decoder demands beyond that. */
    predicate Sound() {
      AllSound(storageHints)
    }

    function Values(): (v: seq<Value>)
      ensures |v| == 9
    {
      [Blob(shortId), OptBlob(manifestKey), OptBlob(manifestHash), OptBlob(documentBytes), Array(HintWires(storageHints)),
       OptBlob(namespaceId), Text(derivation), OptText(createdAt), Dict(metadata)]
    }

    /** The fields as they read back. */
    function Readings(): (v: seq<Value>)
      ensures |v| == 9
    {
      [Blob(shortId), OptBlob(manifestKey), OptBlob(manifestHash), OptBlob(documentBytes),
       Array(NormalizeItems(HintWires(storageHints))), OptBlob(namespaceId), Text(derivation), OptText(createdAt), Dict(metadata)]
    }

    /** `to_canonical` */
    function Wire(): (v: Value) {
      Record(ReferenceNames(), Values())
    }
  }

  function ReferenceFromPrimitive(v: Value): (r: Result<Reference>) {
    if !v.Dict? then Err
    else
      var m := v.entries;
      var sid :- RequireBlob(Named(m, SHORT_ID));
      var items :- ItemsOr(Named(m, STORAGE_HINTS));
      var doc :- OptBlobOf(Named(m, DOCUMENT_BYTES));
      var metadata :- EntriesOr(Named(m, METADATA));
      var key :- OptId(Named(m, MANIFEST_KEY), 20, 20);
      var hash :- OptId(Named(m, MANIFEST_HASH), 32, 32);
      var hints :- DecodeAll(HintFromPrimitive, items);
      var ns :- OptId(Named(m, NAMESPACE_ID), 2, 4);
      var derivation :- TextOr(Named(m, DERIVATION_PROFILE), Ascii(HASH_TRUNCATED));
      var created :- OptTextOf(Named(m, CREATED_AT));
      var reference := Reference(sid, key, hash, doc, hints, ns, derivation, created, metadata);
      if reference.WellFormed() then Ok(reference) else Err
  }

  /**
    Which maps are accepted: every field reads, the short id has eight bytes, the derivation is
    one of the two, and there is something to find the manifest by.
    */
  lemma ReferenceAccepted(m: seq<Entry>)
    ensures ReferenceFromPrimitive(Dict(m)).Ok? <==>
      && RequireBlob(Named(m, SHORT_ID)).Ok? && |RequireBlob(Named(m, SHORT_ID)).value| == 8
      && OptId(Named(m, MANIFEST_KEY), 20, 20).Ok? && OptId(Named(m, MANIFEST_HASH), 32, 32).Ok?
      && OptBlobOf(Named(m, DOCUMENT_BYTES)).Ok? && OptId(Named(m, NAMESPACE_ID), 2, 4).Ok?
      && ItemsOr(Named(m, STORAGE_HINTS)).Ok? && DecodeAll(HintFromPrimitive, ItemsOr(Named(m, STORAGE_HINTS)).value).Ok?
      && TextOr(Named(m, DERIVATION_PROFILE), Ascii("hash_truncated")).Ok?
      && TextOr(Named(m, DERIVATION_PROFILE), Ascii("hash_truncated")).value in {Ascii("hash_truncated"), Ascii("namespaced_registry")}
      && OptTextOf(Named(m, CREATED_AT)).Ok? && EntriesOr(Named(m, METADATA)).Ok?
      && (OptBlobOf(Named(m, DOCUMENT_BYTES)).value.Some? || OptId(Named(m, MANIFEST_KEY), 20, 20).value.Some?
          || DecodeAll(HintFromPrimitive, ItemsOr(Named(m, STORAGE_HINTS)).value).value != [])
  {
    hide Named, RequireBlob, OptBlobOf, ItemsOr, DecodeAll, TextOr, OptTextOf, EntriesOr, Ascii, BytesOf;
  }

  lemma DerivationIsText(utf8: Utf8, r: Reference)
    requires TakesAscii(utf8) && r.WellFormed()
    ensures utf8(r.derivation)
  {
    hide Ascii, HASH_TRUNCATED, NAMESPACED_REGISTRY;
  }

  /** Every field of a valid reference is a value the codec can hold. */
  lemma FieldsComeBack(utf8: Utf8, r: Reference)
    requires TakesAscii(utf8) && r.Valid(utf8)
    ensures AllComeBack(utf8, r.Values(), r.Readings())
  {
    hide StorageHint.Valid, HintWires, HintFromPrimitive, AllSound, ComesBack, IsCanonical, NormalizeItems;
    DerivationIsText(utf8, r);
    hide TakesAscii, Reference.WellFormed, HASH_TRUNCATED, NAMESPACED_REGISTRY;
    var v, w := r.Values(), r.Readings();
    assert ComesBack(utf8, v[0], w[0]) by { LeafComesBack(utf8, Some(r.shortId), 0, true); }
    assert ComesBack(utf8, v[1], w[1]) by { LeafComesBack(utf8, r.manifestKey, 0, true); }
    assert ComesBack(utf8, v[2], w[2]) by { LeafComesBack(utf8, r.manifestHash, 0, true); }
    assert ComesBack(utf8, v[3], w[3]) by { LeafComesBack(utf8, r.documentBytes, 0, true); }
    assert ComesBack(utf8, v[4], w[4]) by { HintsRoundTrip(utf8, r.storageHints); }
    assert ComesBack(utf8, v[5], w[5]) by { LeafComesBack(utf8, r.namespaceId, 0, true); }
    assert ComesBack(utf8, v[6], w[6]) by { LeafComesBack(utf8, Some(r.derivation), 0, true); }
    assert ComesBack(utf8, v[7], w[7]) by { LeafComesBack(utf8, r.createdAt, 0, true); }
    assert ComesBack(utf8, v[8], w[8]) by { CanonicalComesBack(utf8, Dict(r.metadata)); }
    hide Reference.Values, Reference.Readings;
  }

  lemma ReferenceReads(utf8: Utf8, r: Reference) returns (m: seq<Entry>)
    requires TakesAscii(utf8) && r.Valid(utf8)
    ensures ComesBack(utf8, r.Wire(), Dict(m))
    ensures Reads(m, SHORT_ID, Blob(r.shortId)) && Reads(m, MANIFEST_KEY, OptBlob(r.manifestKey))
    ensures Reads(m, MANIFEST_HASH, OptBlob(r.manifestHash)) && Reads(m, DOCUMENT_BYTES, OptBlob(r.documentBytes))
    ensures Reads(m, STORAGE_HINTS, Array(NormalizeItems(HintWires(r.storageHints))))
    ensures Reads(m, NAMESPACE_ID, OptBlob(r.namespaceId)) && Reads(m, DERIVATION_PROFILE, Text(r.derivation))
    ensures Reads(m, CREATED_AT, OptText(r.createdAt)) && Reads(m, METADATA, Dict(r.metadata))
  {
    hide Telling, Reads, Record, ComesBack, Reference.Valid, SHORT_ID, MANIFEST_KEY, MANIFEST_HASH, DOCUMENT_BYTES,
      STORAGE_HINTS, NAMESPACE_ID, DERIVATION_PROFILE, CREATED_AT, METADATA, HintWires, NormalizeItems;
    ReferenceNamesTell();
    FieldsComeBack(utf8, r);
    var n, v := ReferenceNames(), r.Readings();
    m := RecordReads(utf8, n, r.Values(), v);
    assert Reads(m, n[0], v[0]) && Reads(m, n[1], v[1]) && Reads(m, n[2], v[2]) && Reads(m, n[3], v[3]);
    assert Reads(m, n[4], v[4]) && Reads(m, n[5], v[5]) && Reads(m, n[6], v[6]) && Reads(m, n[7], v[7]) && Reads(m, n[8], v[8]);
  }

  /**
    A reference written into a candidate set reads back as itself exactly when each of its hints
    has a type and a location; otherwise it is refused.
    */
  lemma ReferenceRoundTrip(utf8: Utf8, r: Reference)
    requires TakesAscii(utf8) && r.Valid(utf8)
    ensures IsPrimitive(utf8, r.Wire())
    ensures ReferenceFromPrimitive(Normalize(r.Wire())) == if r.Sound() then Ok(r) else Err
  {
    var m := ReferenceReads(utf8, r);
    hide Reads, Named, RequireBlob, OptId, OptBlobOf, ItemsOr, EntriesOr, OptTextOf, TextOr, DecodeAll, AllSound,
      Reference.Wire, Ascii, HASH_TRUNCATED, NAMESPACED_REGISTRY, IsPrimitive, SHORT_ID, MANIFEST_KEY, MANIFEST_HASH,
      DOCUMENT_BYTES, STORAGE_HINTS, NAMESPACE_ID, DERIVATION_PROFILE, CREATED_AT, METADATA;
    assert RequireBlob(Named(m, SHORT_ID)) == Ok(r.shortId) by { ReadsBlob(m, SHORT_ID, r.shortId); }
    assert OptId(Named(m, MANIFEST_KEY), 20, 20) == Ok(r.manifestKey) by { ReadsOptId(m, MANIFEST_KEY, r.manifestKey, 20, 20); }
    assert OptId(Named(m, MANIFEST_HASH), 32, 32) == Ok(r.manifestHash) by { ReadsOptId(m, MANIFEST_HASH, r.manifestHash, 32, 32); }
    assert OptBlobOf(Named(m, DOCUMENT_BYTES)) == Ok(r.documentBytes) by { ReadsOptBlob(m, DOCUMENT_BYTES, r.documentBytes); }
    assert ItemsOr(Named(m, STORAGE_HINTS)) == Ok(NormalizeItems(HintWires(r.storageHints))) by {
      ReadsArray(m, STORAGE_HINTS, NormalizeItems(HintWires(r.storageHints)));
    }
    HintsRoundTrip(utf8, r.storageHints);
    assert OptId(Named(m, NAMESPACE_ID), 2, 4) == Ok(r.namespaceId) by { ReadsOptId(m, NAMESPACE_ID, r.namespaceId, 2, 4); }
    assert TextOr(Named(m, DERIVATION_PROFILE), Ascii(HASH_TRUNCATED)) == Ok(r.derivation) by {
      ReadsText(m, DERIVATION_PROFILE, r.derivation, Ascii(HASH_TRUNCATED));
    }
    assert OptTextOf(Named(m, CREATED_AT)) == Ok(r.createdAt) by { ReadsOptText(m, CREATED_AT, r.createdAt); }
    assert EntriesOr(Named(m, METADATA)) == Ok(r.metadata) by { ReadsDict(m, METADATA, r.metadata); }
  }

  /** A reference is determined by what it is written as, sound or not. */
  lemma ReferenceInjective(utf8: Utf8, x: Reference, y: Reference)
    requires TakesAscii(utf8) && x.Valid(utf8) && y.Valid(utf8) && Normalize(x.Wire()) == Normalize(y.Wire())
    ensures x == y
  {
    hide Reads, Normalize, IsPrimitive, Reference.Wire, StorageHint.Valid, OptBlob, OptText, SHORT_ID, MANIFEST_KEY,
      MANIFEST_HASH, DOCUMENT_BYTES, STORAGE_HINTS, NAMESPACE_ID, DERIVATION_PROFILE, CREATED_AT, METADATA, HintWires,
      NormalizeItems, Reference.WellFormed, IsCanonical;
    var m := ReferenceReads(utf8, x);
    var n := ReferenceReads(utf8, y);
    ReadsOne(m, SHORT_ID, Blob(x.shortId), Blob(y.shortId));
    ReadsOneOpt(m, MANIFEST_KEY, x.manifestKey, y.manifestKey);
    ReadsOneOpt(m, MANIFEST_HASH, x.manifestHash, y.manifestHash);
    ReadsOneOpt(m, DOCUMENT_BYTES, x.documentBytes, y.documentBytes);
    assert x.storageHints == y.storageHints by {
      ReadsOne(m, STORAGE_HINTS, Array(NormalizeItems(HintWires(x.storageHints))), Array(NormalizeItems(HintWires(y.storageHints))));
      HintsInjective(utf8, x.storageHints, y.storageHints);
    }
    ReadsOneOpt(m, NAMESPACE_ID, x.namespaceId, y.namespaceId);
    ReadsOne(m, DERIVATION_PROFILE, Text(x.derivation), Text(y.derivation));
    ReadsOneOpt(m, CREATED_AT, x.createdAt, y.createdAt);
    ReadsOne(m, METADATA, Dict(x.metadata), Dict(y.metadata));
  }

  lemma HintsInjective(utf8: Utf8, xs: seq<StorageHint>, ys: seq<StorageHint>)
    requires TakesAscii(utf8) && (forall x <- xs :: x.Valid(utf8)) && (forall y <- ys :: y.Valid(utf8))
    requires NormalizeItems(HintWires(xs)) == NormalizeItems(HintWires(ys))
    ensures xs == ys
  {
    hide Normalize, StorageHint.Wire, StorageHint.Valid, TakesAscii;
    var a, b := NormalizeItems(HintWires(xs)), NormalizeItems(HintWires(ys));
    assert |xs| == |a| == |ys|;
    forall i | 0 <= i < |xs| ensures xs[i] == ys[i] {
      assert a[i] == Normalize(xs[i].Wire()) && b[i] == Normalize(ys[i].Wire());
      HintInjective(utf8, xs[i], ys[i]);
    }
  }

  function ReferenceWires(refs: seq<Reference>): (v: seq<Value>)
    ensures |v| == |refs| && forall i :: 0 <= i < |v| ==> v[i] == refs[i].Wire()
  {
    seq(|refs|, i requires 0 <= i < |refs| => refs[i].Wire())
  }

  lemma ReferencesInjective(utf8: Utf8, xs: seq<Reference>, ys: seq<Reference>)
    requires TakesAscii(utf8) && (forall x <- xs :: x.Valid(utf8)) && (forall y <- ys :: y.Valid(utf8))
    requires NormalizeItems(ReferenceWires(xs)) == NormalizeItems(ReferenceWires(ys))
    ensures xs == ys
  {
    hide Normalize, Reference.Wire, Reference.Valid, TakesAscii;
    var a, b := NormalizeItems(ReferenceWires(xs)), NormalizeItems(ReferenceWires(ys));
    assert |xs| == |a| == |ys|;
    forall i | 0 <= i < |xs| ensures xs[i] == ys[i] {
      assert a[i] == Normalize(xs[i].Wire()) && b[i] == Normalize(ys[i].Wire());
      ReferenceInjective(utf8, xs[i], ys[i]);
    }
  }

  predicate SoundReferences(refs: seq<Reference>) {
    forall r <- refs :: r.Sound()
  }

  lemma ReferencesRoundTrip(utf8: Utf8, refs: seq<Reference>)
    requires TakesAscii(utf8) && forall r <- refs :: r.Valid(utf8)
    ensures ComesBack(utf8, Array(ReferenceWires(refs)), Array(NormalizeItems(ReferenceWires(refs))))
    ensures DecodeAll(ReferenceFromPrimitive, NormalizeItems(ReferenceWires(refs)))
         == if SoundReferences(refs) then Ok(refs) else Err
  {
    hide Reference.Wire, Reference.Valid, Reference.Sound, ReferenceFromPrimitive, IsPrimitive, TakesAscii;
    var items := NormalizeItems(ReferenceWires(refs));
    forall i | 0 <= i < |refs|
      ensures ComesBack(utf8, ReferenceWires(refs)[i], items[i])
      ensures ReferenceFromPrimitive(items[i]) == if refs[i].Sound() then Ok(refs[i]) else Err
    {
      ReferenceRoundTrip(utf8, refs[i]);
    }
    ListComesBack(utf8, ReferenceWires(refs), items);
    if SoundReferences(refs) {
      AllDecode(ReferenceFromPrimitive, items, refs);
    } else {
      var i :| 0 <= i < |refs| && !refs[i].Sound();
      OneFails(ReferenceFromPrimitive, items, i);
    }
  }
}
