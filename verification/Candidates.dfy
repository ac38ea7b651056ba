/** The value stored at one route key: a candidate set and its canonical bytes. */
module Candidates {
  import opened Wrappers
  import opened Digits
  import opened Canonical
  import opened Hashes
  import opened Schema
  import opened FieldNames
  import opened References
  import opened Ranking
  import L = Lex

  // ----- the order of references -----

  function OrEmpty(o: Option<Bytes>): Bytes {
    if o.Some? then o.value else []
  }

  /** `(short_id, manifest_key or manifest_hash or document hash, namespace_id, derivation_profile)` */
  function SortKey(h: Bytes -> Digest, r: Reference): (k: seq<Bytes>) {
    var id := if r.manifestKey.Some? then r.manifestKey.value
              else if r.manifestHash.Some? then r.manifestHash.value
              else if r.documentBytes.Some? then h(r.documentBytes.value) else [];
    [r.shortId, id, OrEmpty(r.namespaceId), r.derivation]
  }

  /** Short id first, then what identifies the manifest, then the namespace, then the derivation. */
  lemma SortKeyOrder(h: Bytes -> Digest, r: Reference, s: Reference)
    ensures L.Less(r.shortId, s.shortId) ==> PartsLess(SortKey(h, r), SortKey(h, s))
    ensures r.shortId == s.shortId && r.manifestKey.Some? && s.manifestKey.Some? && L.Less(r.manifestKey.value, s.manifestKey.value) ==>
      PartsLess(SortKey(h, r), SortKey(h, s))
    ensures r.shortId == s.shortId && r.manifestKey == s.manifestKey && r.manifestKey.Some? ==>
      var m, n := OrEmpty(r.namespaceId), OrEmpty(s.namespaceId);
      PartsLess(SortKey(h, r), SortKey(h, s)) <==> L.Less(m, n) || (m == n && L.Less(r.derivation, s.derivation))
  {
    hide L.Less;
    var x, y := SortKey(h, r), SortKey(h, s);
    PartsStep(x, y);
    PartsStep(x[1..], y[1..]);
    PartsStep(x[2..], y[2..]);
    PartsStep(x[3..], y[3..]);
    assert x[1..][1..] == x[2..] && y[1..][1..] == y[2..] && x[2..][1..] == x[3..] && y[2..][1..] == y[3..];
    L.LessAsymmetric(r.shortId, r.shortId);
    L.LessAsymmetric(x[1], x[1]);
  }

  lemma PartsStep(a: seq<Bytes>, b: seq<Bytes>)
    requires a != [] && b != []
    ensures PartsLess(a, b) <==> L.Less(a[0], b[0]) || (a[0] == b[0] && PartsLess(a[1..], b[1..]))
  {
  }

  function Keyed(h: Bytes -> Digest, refs: seq<Reference>): (s: seq<Ranked<Reference>>)
    ensures |s| == |refs| && forall i :: 0 <= i < |s| ==> s[i] == Ranked(0, SortKey(h, refs[i]), refs[i])
  {
    seq(|refs|, i requires 0 <= i < |refs| => Ranked(0, SortKey(h, refs[i]), refs[i]))
  }

  /** `sorted(references, key=_reference_sort_key)` */
  function SortedReferences(h: Bytes -> Digest, refs: seq<Reference>): (s: seq<Reference>)
    ensures |s| == |refs|
  {
    Unkeyed(SortRanked(Keyed(h, refs)))
  }

  /** Sorting references permutes them, and a second sort changes nothing. */
  lemma SortedReferencesPermute(h: Bytes -> Digest, refs: seq<Reference>)
    ensures multiset(SortedReferences(h, refs)) == multiset(refs)
    ensures SortedReferences(h, SortedReferences(h, refs)) == SortedReferences(h, refs)
  {
    hide SortKey, SortRanked;
    var s := SortRanked(Keyed(h, refs));
    SortRankedPermutes(Keyed(h, refs));
    SortValues(Keyed(h, refs));
    assert Unkeyed(Keyed(h, refs)) == refs;
    forall i | 0 <= i < |s| ensures s[i] == Ranked(0, SortKey(h, s[i].value), s[i].value) {
      assert s[i] in multiset(s);
      assert s[i] in Keyed(h, refs);
    }
    assert Keyed(h, Unkeyed(s)) == s;
    SortOrdered(Keyed(h, refs));
    SortOfOrdered(s);
  }

  /** No reference comes before one with a smaller sort key. */
  predicate InSortOrder(h: Bytes -> Digest, refs: seq<Reference>) {
    forall i, j :: 0 <= i < j < |refs| ==> !PartsLess(SortKey(h, refs[j]), SortKey(h, refs[i]))
  }

  lemma SortedReferencesInOrder(h: Bytes -> Digest, refs: seq<Reference>)
    ensures InSortOrder(h, SortedReferences(h, refs))
  {
    hide SortKey, SortRanked, PartsLess;
    var s := SortRanked(Keyed(h, refs));
    SortOrdered(Keyed(h, refs));
    SortRankedPermutes(Keyed(h, refs));
    forall i | 0 <= i < |s| ensures s[i] == Ranked(0, SortKey(h, s[i].value), s[i].value) {
      assert s[i] in multiset(s);
      assert s[i] in Keyed(h, refs);
    }
    forall i, j | 0 <= i < j < |s| ensures !PartsLess(s[j].parts, s[i].parts) { assert !RankLess(s[j], s[i]); }
  }

  lemma SortedMembers(h: Bytes -> Digest, refs: seq<Reference>)
    ensures forall r :: r in SortedReferences(h, refs) <==> r in refs
    ensures SoundReferences(SortedReferences(h, refs)) <==> SoundReferences(refs)
  {
    hide SortedReferences, Reference.Sound;
    SortedReferencesPermute(h, refs);
    forall r ensures r in SortedReferences(h, refs) <==> r in refs {
      assert r in SortedReferences(h, refs) <==> r in multiset(SortedReferences(h, refs));
      assert r in refs <==> r in multiset(refs);
    }
  }

  // ----- the candidate set -----

  function SetNames(): (n: seq<Name>)
    ensures |n| == 6
  {
    [VERSION, ROUTE_KEY, COMPLETE, TOTAL_AVAILABLE, REFERENCES, METADATA]
  }

  lemma SetNamesTell()
    ensures Telling(SetNames())
  {
    var n := SetNames();
    assert Tag(n[0]) == (7, 'v', 'n') && Tag(n[1]) == (9, 'r', 'y') && Tag(n[2]) == (8, 'c', 'e');
    assert Tag(n[3]) == (15, 't', 'e') && Tag(n[4]) == (10, 'r', 's') && Tag(n[5]) == (8, 'm', 'a');
    hide Tag, SetNames;
  }

  function OptInt(o: Option<int>): (v: Value) {
    if o.Some? then Int(o.value) else Null
  }

  datatype CandidateSet = CandidateSet(
    routeKey: Bytes, references: seq<Reference>, complete: bool, totalAvailable: Option<int>, metadata: seq<Entry>, version: int)
  {
    /** The checks of the constructor; a route key is a digest. */
    predicate WellFormed() {
      |routeKey| == 32 && version > 0 && (totalAvailable.Some? ==> totalAvailable.value >= |references|)
    }

    ghost predicate Valid(utf8: Utf8) {
      WellFormed() && IsCanonical(utf8, Dict(metadata)) && forall r <- references :: r.Valid(utf8)
    }

    function Sorted(h: Bytes -> Digest): (cs: CandidateSet) {
      this.(references := SortedReferences(h, references))
    }

    function Values(h: Bytes -> Digest): (v: seq<Value>)
      ensures |v| == 6
    {
      [Int(version), Blob(routeKey), Bool(complete), OptInt(totalAvailable),
       Array(ReferenceWires(SortedReferences(h, references))), Dict(metadata)]
    }

    /** The fields as they read back. */
    function Readings(h: Bytes -> Digest): (v: seq<Value>)
      ensures |v| == 6
    {
      [Int(version), Blob(routeKey), Bool(complete), OptInt(totalAvailable),
       Array(NormalizeItems(ReferenceWires(SortedReferences(h, references)))), Dict(metadata)]
    }

    /** `to_canonical` */
    function Wire(h: Bytes -> Digest): (v: Value) {
      Record(SetNames(), Values(h))
    }

    /** `canonical_bytes()` */
    function CanonicalBytes(h: Bytes -> Digest): (b: Result<Bytes>) {
      Encode(Wire(h))
    }
  }

  // ----- reading a candidate set -----

  function Truthy(v: Value): bool {
    match v
    case Null => false
    case Bool(b) => b
    case Int(i) => i != 0
    case Blob(b) => b != []
    case Text(t) => t != []
    case Array(items) => items != []
    case Dict(entries) => entries != []
  }

  /** Python's `bool`: everything but none, false, zero and what is empty. */
  lemma TruthyIff(v: Value)
    ensures Truthy(v) <==> v !in {Null, Bool(false), Int(0), Blob([]), Text([]), Array([]), Dict([])}
  {
  }

  /** `int(value)` on the values the codec produces, text aside. */
  function IntOf(v: Value): (i: Result<int>) {
    match v
    case Int(i) => Ok(i)
    case Bool(b) => Ok(if b then 1 else 0)
    case _ => Err
  }

  function OptIntOf(v: Option<Value>): (r: Result<Option<int>>) {
    if v.None? || v.value.Null? then Ok(None)
    else
      var i :- IntOf(v.value);
      Ok(Some(i))
  }

  function IntOr(v: Option<Value>, default: int): (r: Result<int>) {
    if v.None? then Ok(default) else IntOf(v.value)
  }

  /** `dict(m.get(name, {}) or {})` */
  function TruthyEntries(v: Option<Value>): (r: Result<seq<Entry>>) {
    if v.Some? && !Truthy(v.value) then Ok([]) else EntriesOr(v)
  }

  function CandidateSetFromPrimitive(v: Value): (r: Result<CandidateSet>) {
    if !v.Dict? then Err
    else
      var m := v.entries;
      var key :- RequireDigest(Named(m, ROUTE_KEY));
      var items :- ItemsOr(Named(m, REFERENCES));
      var version :- IntOr(Named(m, VERSION), 1);
      var refs :- DecodeAll(ReferenceFromPrimitive, items);
      var complete := Named(m, COMPLETE).None? || Truthy(Named(m, COMPLETE).value);
      var total :- OptIntOf(Named(m, TOTAL_AVAILABLE));
      var metadata :- TruthyEntries(Named(m, METADATA));
      var cs := CandidateSet(key, refs, complete, total, metadata, version);
      if cs.WellFormed() then Ok(cs) else Err
  }

  /** What a set written elsewhere decodes to where fields are missing, or flags stand for numbers. */
  lemma SetDefaults(m: seq<Entry>)
    requires CandidateSetFromPrimitive(Dict(m)).Ok?
    ensures var cs := CandidateSetFromPrimitive(Dict(m)).value;
      && (Named(m, VERSION).None? || Named(m, VERSION) == Some(Bool(true)) ==> cs.version == 1)
      && (Named(m, COMPLETE).None? ==> cs.complete)
      && (Named(m, COMPLETE).Some? ==> (cs.complete <==> Truthy(Named(m, COMPLETE).value)))
      && (Named(m, TOTAL_AVAILABLE).None? ==> cs.totalAvailable == None)
      && (Named(m, TOTAL_AVAILABLE) == Some(Bool(false)) ==> cs.totalAvailable == Some(0))
      && (Named(m, REFERENCES).None? ==> cs.references == [])
      && (Named(m, METADATA).None? || !Truthy(Named(m, METADATA).value) ==> cs.metadata == [])
  {
    hide Named, Truthy, ReferenceFromPrimitive, VERSION, COMPLETE, TOTAL_AVAILABLE, REFERENCES, METADATA, ROUTE_KEY;
  }

  function CandidateSetFromBytes(utf8: Utf8, data: Bytes): (r: Result<CandidateSet>) {
    var v :- Loads(utf8, data, true);
    CandidateSetFromPrimitive(v)
  }

  // ----- the round trip -----

  lemma SetComesBack(utf8: Utf8, h: Bytes -> Digest, cs: CandidateSet)
    requires TakesAscii(utf8) && cs.Valid(utf8)
    ensures AllComeBack(utf8, cs.Values(h), cs.Readings(h))
  {
    hide Reference.Valid, ReferenceWires, SoundReferences, SortedReferences, ComesBack, IsCanonical, NormalizeItems, TakesAscii;
    var refs := SortedReferences(h, cs.references);
    var v, w := cs.Values(h), cs.Readings(h);
    assert ComesBack(utf8, v[0], w[0]) by { LeafComesBack(utf8, None, cs.version, true); }
    assert ComesBack(utf8, v[1], w[1]) by { LeafComesBack(utf8, Some(cs.routeKey), 0, true); }
    assert ComesBack(utf8, v[2], w[2]) by { LeafComesBack(utf8, None, 0, cs.complete); }
    assert ComesBack(utf8, v[3], w[3]) by {
      LeafComesBack(utf8, None, if cs.totalAvailable.Some? then cs.totalAvailable.value else 0, true);
    }
    assert ComesBack(utf8, v[4], w[4]) by {
      SortedMembers(h, cs.references);
      ReferencesRoundTrip(utf8, refs);
    }
    assert ComesBack(utf8, v[5], w[5]) by { CanonicalComesBack(utf8, Dict(cs.metadata)); }
    hide CandidateSet.Values, CandidateSet.Readings;
  }

  lemma SetReads(utf8: Utf8, h: Bytes -> Digest, cs: CandidateSet) returns (m: seq<Entry>)
    requires TakesAscii(utf8) && cs.Valid(utf8)
    ensures ComesBack(utf8, cs.Wire(h), Dict(m))
    ensures Reads(m, VERSION, Int(cs.version)) && Reads(m, ROUTE_KEY, Blob(cs.routeKey)) && Reads(m, COMPLETE, Bool(cs.complete))
    ensures Reads(m, TOTAL_AVAILABLE, OptInt(cs.totalAvailable)) && Reads(m, METADATA, Dict(cs.metadata))
    ensures Reads(m, REFERENCES, Array(NormalizeItems(ReferenceWires(SortedReferences(h, cs.references)))))
  {
    hide Telling, Reads, Record, ComesBack, CandidateSet.Valid, VERSION, ROUTE_KEY, COMPLETE, TOTAL_AVAILABLE, REFERENCES,
      METADATA, SortedReferences, ReferenceWires, NormalizeItems;
    SetNamesTell();
    SetComesBack(utf8, h, cs);
    var n, v := SetNames(), cs.Readings(h);
    m := RecordReads(utf8, n, cs.Values(h), v);
    assert Reads(m, n[0], v[0]) && Reads(m, n[1], v[1]) && Reads(m, n[2], v[2]);
    assert Reads(m, n[3], v[3]) && Reads(m, n[4], v[4]) && Reads(m, n[5], v[5]);
  }

  lemma SetFromFields(m: seq<Entry>, cs: CandidateSet, items: seq<Value>, refs: Result<seq<Reference>>)
    requires cs.WellFormed() && DecodeAll(ReferenceFromPrimitive, items) == refs
    requires Reads(m, VERSION, Int(cs.version)) && Reads(m, ROUTE_KEY, Blob(cs.routeKey)) && Reads(m, COMPLETE, Bool(cs.complete))
    requires Reads(m, TOTAL_AVAILABLE, OptInt(cs.totalAvailable)) && Reads(m, METADATA, Dict(cs.metadata))
    requires Reads(m, REFERENCES, Array(items)) && |items| == |cs.references| && (refs.Ok? ==> refs.value == cs.references)
    ensures CandidateSetFromPrimitive(Dict(m)) == if refs.Ok? then Ok(cs) else Err
  {
    hide Named, DecodeAll, ReferenceFromPrimitive, VERSION, ROUTE_KEY, COMPLETE, TOTAL_AVAILABLE, REFERENCES, METADATA;
    ReadsBlob(m, ROUTE_KEY, cs.routeKey);
    ReadsArray(m, REFERENCES, items);
    assert IntOr(Named(m, VERSION), 1) == Ok(cs.version);
    assert Named(m, COMPLETE) == Some(Bool(cs.complete));
    assert OptIntOf(Named(m, TOTAL_AVAILABLE)) == Ok(cs.totalAvailable);
    assert TruthyEntries(Named(m, METADATA)) == Ok(cs.metadata);
    hide Reads, RequireDigest, ItemsOr, IntOr, OptIntOf, TruthyEntries;
  }

  /**
    The stored bytes of a candidate set decode exactly when every storage hint has a type and a
    location: to the set with its references sorted, which has the same bytes.
    */
  lemma CandidateSetRoundTrip(utf8: Utf8, h: Bytes -> Digest, cs: CandidateSet)
    requires TakesAscii(utf8) && cs.Valid(utf8) && cs.CanonicalBytes(h).Ok?
    ensures CandidateSetFromBytes(utf8, cs.CanonicalBytes(h).value)
         == if SoundReferences(cs.references) then Ok(cs.Sorted(h)) else Err
    ensures cs.Sorted(h).CanonicalBytes(h) == cs.CanonicalBytes(h)
  {
    hide Reads, CandidateSet.Wire, CandidateSetFromPrimitive, IsCanonical, IsPrimitive, Encode, Loads, Normalize,
      SortedReferences, Reference.Valid, SoundReferences, DecodeAll, ReferenceWires, NormalizeItems;
    SortedSame(h, cs);
    var refs := SortedReferences(h, cs.references);
    var items := NormalizeItems(ReferenceWires(refs));
    assert |items| == |refs|;
    SortedMembers(h, cs.references);
    ReferencesRoundTrip(utf8, refs);
    var m := SetReads(utf8, h, cs);
    SetFromFields(m, cs.Sorted(h), items, DecodeAll(ReferenceFromPrimitive, items));
    ValueLoads(utf8, cs.Wire(h));
  }

  /** The stored bytes determine the set up to the order of its references, whether they decode or not. */
  lemma CandidateSetInjective(utf8: Utf8, h: Bytes -> Digest, x: CandidateSet, y: CandidateSet)
    requires TakesAscii(utf8) && x.Valid(utf8) && y.Valid(utf8)
    requires x.CanonicalBytes(h).Ok? && x.CanonicalBytes(h) == y.CanonicalBytes(h)
    ensures x.Sorted(h) == y.Sorted(h)
  {
    hide Reads, Normalize, IsPrimitive, Encode, CandidateSet.Wire, Reference.Valid, VERSION, ROUTE_KEY, COMPLETE,
      TOTAL_AVAILABLE, REFERENCES, METADATA, ReferenceWires, NormalizeItems, SortedReferences, IsCanonical,
      CandidateSet.WellFormed, OptInt;
    var m := SetReads(utf8, h, x);
    var n := SetReads(utf8, h, y);
    EncodingsEqualIffValuesEqual(utf8, x.Wire(h), y.Wire(h));
    ReadsOne(m, VERSION, Int(x.version), Int(y.version));
    ReadsOne(m, ROUTE_KEY, Blob(x.routeKey), Blob(y.routeKey));
    ReadsOne(m, COMPLETE, Bool(x.complete), Bool(y.complete));
    assert x.totalAvailable == y.totalAvailable by { OptIntOne(m, x.totalAvailable, y.totalAvailable); }
    ReadsOne(m, METADATA, Dict(x.metadata), Dict(y.metadata));
    assert SortedReferences(h, x.references) == SortedReferences(h, y.references) by {
      var xs, ys := SortedReferences(h, x.references), SortedReferences(h, y.references);
      ReadsOne(m, REFERENCES, Array(NormalizeItems(ReferenceWires(xs))), Array(NormalizeItems(ReferenceWires(ys))));
      SortedMembers(h, x.references);
      SortedMembers(h, y.references);
      ReferencesInjective(utf8, xs, ys);
    }
  }

  lemma OptIntOne(m: seq<Entry>, o: Option<int>, p: Option<int>)
    requires Reads(m, TOTAL_AVAILABLE, OptInt(o)) && Reads(m, TOTAL_AVAILABLE, OptInt(p))
    ensures o == p
  {
    hide Named;
  }

  lemma SortedSame(h: Bytes -> Digest, cs: CandidateSet)
    ensures cs.Sorted(h).CanonicalBytes(h) == cs.CanonicalBytes(h)
  {
    hide SortedReferences, Encode, Record, ReferenceWires;
    SortedReferencesPermute(h, cs.references);
    assert cs.Sorted(h).Values(h) == cs.Values(h);
  }

  // ----- which candidate sets have an encoding -----

  /** Stored as they are, references encode when their own fields do. */
  lemma ReferenceEncodes(r: Reference)
    requires AllEncoded(r.Values())
    ensures Encode(r.Wire()).Ok?
  {
    hide Encode, Record, Telling;
    ReferenceNamesTell();
    RecordEncodes(ReferenceNames(), r.Values());
  }

  lemma SetEncodes(h: Bytes -> Digest, cs: CandidateSet)
    ensures cs.CanonicalBytes(h).Ok? <==> AllEncoded(cs.Values(h))
  {
    hide Encode, Record, Telling, AllEncoded;
    SetNamesTell();
    RecordEncodes(SetNames(), cs.Values(h));
  }
}
