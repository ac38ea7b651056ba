/** Storage hints and trust evidence: records whose constructors check nothing, but whose decoders do. */
module Hints {
  import opened Wrappers
  import opened Digits
  import opened Canonical
  import opened Hashes
  import opened Schema
  import opened FieldNames

  function HintNames(): (n: seq<Name>) {
    [TYPE, URI, CONTENT_HASH, METADATA]
  }

  function EvidenceNames(): (n: seq<Name>) {
    [TYPE, BODY]
  }

  lemma NamesTell()
    ensures Telling(HintNames()) && Telling(EvidenceNames())
  {
  }

  // ----- storage hints -----

  datatype StorageHint = StorageHint(kind: Bytes, uri: Bytes, contentHash: Option<Bytes>, metadata: seq<Entry>) {

    /** What the types of the fields guarantee: text may be empty. */
    ghost predicate Valid(utf8: Utf8) {
      utf8(kind) && utf8(uri) && OptDigestValid(contentHash) && IsCanonical(utf8, Dict(metadata))
    }

    /** What the decoder demands. */
    predicate Sound() {
      kind != [] && uri != []
    }

    function Values(): (v: seq<Value>) {
      [Text(kind), Text(uri), OptBlob(contentHash), Dict(metadata)]
    }

    /** `to_canonical` */
    function Wire(): (v: Value) {
      Record(HintNames(), Values())
    }
  }

  function HintFromPrimitive(v: Value): (r: Result<StorageHint>) {
    if !v.Dict? then Err
    else
      var m := v.entries;
      var kind :- RequireText(Named(m, TYPE));
      var uri :- RequireText(Named(m, URI));
      var hash :- OptDigest(Named(m, CONTENT_HASH));
      var metadata :- EntriesOr(Named(m, METADATA));
      Ok(StorageHint(kind, uri, hash, metadata))
  }

  lemma HintReads(utf8: Utf8, x: StorageHint) returns (m: seq<Entry>)
    requires TakesAscii(utf8) && x.Valid(utf8)
    ensures ComesBack(utf8, x.Wire(), Dict(m))
    ensures Reads(m, TYPE, Text(x.kind)) && Reads(m, URI, Text(x.uri))
    ensures Reads(m, CONTENT_HASH, OptBlob(x.contentHash)) && Reads(m, METADATA, Dict(x.metadata))
  {
    NamesTell();
    var v := x.Values();
    forall i | 0 <= i < 4 ensures ComesBack(utf8, v[i], v[i]) { CanonicalComesBack(utf8, v[i]); }
    hide Telling, Reads, Record, TYPE, URI, CONTENT_HASH, METADATA, ComesBack;
    m := RecordReads(utf8, HintNames(), v, v);
    var n := HintNames();
    assert Reads(m, n[0], v[0]) && Reads(m, n[1], v[1]) && Reads(m, n[2], v[2]) && Reads(m, n[3], v[3]);
  }

  /** A hint reads back as itself exactly when it has a type and a location, and is refused otherwise. */
  lemma HintRoundTrip(utf8: Utf8, x: StorageHint)
    requires TakesAscii(utf8) && x.Valid(utf8)
    ensures IsPrimitive(utf8, x.Wire())
    ensures HintFromPrimitive(Normalize(x.Wire())) == if x.Sound() then Ok(x) else Err
  {
    var m := HintReads(utf8, x);
    ReadsText(m, TYPE, x.kind, []);
    ReadsText(m, URI, x.uri, []);
    ReadsOptBlob(m, CONTENT_HASH, x.contentHash);
    ReadsDict(m, METADATA, x.metadata);
    hide Reads, Named, RequireText, OptDigest, EntriesOr, TYPE, URI, CONTENT_HASH, METADATA, StorageHint.Wire, IsPrimitive;
  }

  /** A hint is determined by what it is written as, sound or not. */
  lemma HintInjective(utf8: Utf8, x: StorageHint, y: StorageHint)
    requires TakesAscii(utf8) && x.Valid(utf8) && y.Valid(utf8) && Normalize(x.Wire()) == Normalize(y.Wire())
    ensures x == y
  {
    hide Reads, Normalize, IsPrimitive, StorageHint.Wire, StorageHint.Valid, OptBlob, TYPE, URI, CONTENT_HASH, METADATA;
    var m := HintReads(utf8, x);
    var n := HintReads(utf8, y);
    ReadsOne(m, TYPE, Text(x.kind), Text(y.kind));
    ReadsOne(m, URI, Text(x.uri), Text(y.uri));
    ReadsOneOpt(m, CONTENT_HASH, x.contentHash, y.contentHash);
    ReadsOne(m, METADATA, Dict(x.metadata), Dict(y.metadata));
  }

  function HintWires(xs: seq<StorageHint>): (v: seq<Value>)
    ensures |v| == |xs| && forall i :: 0 <= i < |v| ==> v[i] == xs[i].Wire()
  {
    seq(|xs|, i requires 0 <= i < |xs| => xs[i].Wire())
  }

  predicate AllSound(xs: seq<StorageHint>) {
    forall x <- xs :: x.Sound()
  }

  /** A list of hints reads back exactly when all of them do. */
  lemma HintsRoundTrip(utf8: Utf8, xs: seq<StorageHint>)
    requires TakesAscii(utf8) && forall x <- xs :: x.Valid(utf8)
    ensures ComesBack(utf8, Array(HintWires(xs)), Array(NormalizeItems(HintWires(xs))))
    ensures DecodeAll(HintFromPrimitive, NormalizeItems(HintWires(xs))) == if AllSound(xs) then Ok(xs) else Err
  {
    hide StorageHint.Wire, StorageHint.Valid, HintFromPrimitive, IsPrimitive, TakesAscii;
    var items := NormalizeItems(HintWires(xs));
    forall i | 0 <= i < |xs|
      ensures ComesBack(utf8, HintWires(xs)[i], items[i])
      ensures HintFromPrimitive(items[i]) == if xs[i].Sound() then Ok(xs[i]) else Err
    {
      HintRoundTrip(utf8, xs[i]);
    }
    ListComesBack(utf8, HintWires(xs), items);
    if AllSound(xs) {
      AllDecode(HintFromPrimitive, items, xs);
    } else {
      var i :| 0 <= i < |xs| && !xs[i].Sound();
      OneFails(HintFromPrimitive, items, i);
    }
  }

  // ----- trust evidence -----

  datatype TrustEvidence = TrustEvidence(kind: Bytes, body: seq<Entry>) {

    ghost predicate Valid(utf8: Utf8) {
      utf8(kind) && IsCanonical(utf8, Dict(body))
    }

    predicate Sound() {
      kind != []
    }

    function Values(): (v: seq<Value>) {
      [Text(kind), Dict(body)]
    }

    /** `to_canonical`; an empty body is kept. */
    function Wire(): (v: Value) {
      Full(EvidenceNames(), Values())
    }
  }

  function EvidenceFromPrimitive(v: Value): (r: Result<TrustEvidence>) {
    if !v.Dict? then Err
    else
      var kind :- RequireText(Named(v.entries, TYPE));
      var body :- RequireDict(Named(v.entries, BODY));
      Ok(TrustEvidence(kind, body))
  }

  /** Evidence reads back as itself exactly when it has a type, and is refused otherwise. */
  lemma EvidenceRoundTrip(utf8: Utf8, x: TrustEvidence)
    requires TakesAscii(utf8) && x.Valid(utf8)
    ensures IsPrimitive(utf8, x.Wire())
    ensures EvidenceFromPrimitive(Normalize(x.Wire())) == if x.Sound() then Ok(x) else Err
  {
    var m := EvidenceReads(utf8, x);
    hide Named, TYPE, BODY, TrustEvidence.Wire, IsPrimitive, IsCanonical;
  }

  lemma EvidenceReads(utf8: Utf8, x: TrustEvidence) returns (m: seq<Entry>)
    requires TakesAscii(utf8) && x.Valid(utf8)
    ensures ComesBack(utf8, x.Wire(), Dict(m))
    ensures Named(m, TYPE) == Some(Text(x.kind)) && Named(m, BODY) == Some(Dict(x.body))
  {
    NamesTell();
    var v, n := x.Values(), EvidenceNames();
    assert AllComeBack(utf8, v, v) by {
      CanonicalComesBack(utf8, v[0]);
      CanonicalComesBack(utf8, v[1]);
    }
    hide Telling, Named, TYPE, BODY, Full, IsPrimitive, Normalize, ComesBack;
    m := FullReads(utf8, n, v, v);
    assert Named(m, n[0]) == Some(v[0]) && Named(m, n[1]) == Some(v[1]);
  }

  function EvidenceWires(xs: seq<TrustEvidence>): (v: seq<Value>)
    ensures |v| == |xs| && forall i :: 0 <= i < |v| ==> v[i] == xs[i].Wire()
  {
    seq(|xs|, i requires 0 <= i < |xs| => xs[i].Wire())
  }

  predicate AllTyped(xs: seq<TrustEvidence>) {
    forall x <- xs :: x.Sound()
  }

  /** A list of evidence reads back exactly when every item has a type. */
  lemma EvidenceListRoundTrip(utf8: Utf8, xs: seq<TrustEvidence>)
    requires TakesAscii(utf8) && forall x <- xs :: x.Valid(utf8)
    ensures ComesBack(utf8, Array(EvidenceWires(xs)), Array(NormalizeItems(EvidenceWires(xs))))
    ensures DecodeAll(EvidenceFromPrimitive, NormalizeItems(EvidenceWires(xs))) == if AllTyped(xs) then Ok(xs) else Err
  {
    hide TrustEvidence.Wire, TrustEvidence.Valid, EvidenceFromPrimitive, IsPrimitive, TakesAscii;
    var items := NormalizeItems(EvidenceWires(xs));
    forall i | 0 <= i < |xs|
      ensures ComesBack(utf8, EvidenceWires(xs)[i], items[i])
      ensures EvidenceFromPrimitive(items[i]) == if xs[i].Sound() then Ok(xs[i]) else Err
    {
      EvidenceRoundTrip(utf8, xs[i]);
    }
    ListComesBack(utf8, EvidenceWires(xs), items);
    if AllTyped(xs) {
      AllDecode(EvidenceFromPrimitive, items, xs);
    } else {
      var i :| 0 <= i < |xs| && !xs[i].Sound();
      OneFails(EvidenceFromPrimitive, items, i);
    }
  }
}
