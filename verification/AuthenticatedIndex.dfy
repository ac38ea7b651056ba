/**
  The authenticated SHORT64-HV index: every route key commits, through a sparse Merkle map, to
  the canonical bytes of its complete candidate set.
  */
module AuthenticatedIndex {
  import opened Wrappers
  import opened Digits
  import opened Hashes
  import opened Canonical
  import opened Schema
  import opened References
  import opened FieldNames
  import opened Hints
  import opened Candidates
  import opened SparseMerkle
  import opened RouteIndex

  /** The committed candidate set of a bucket. */
  function SetOf(routeKey: Bytes, refs: seq<Reference>): (cs: CandidateSet) {
    CandidateSet(routeKey, refs, true, Some(|refs|), [], 1)
  }

  datatype RootRecord = RootRecord(rootHash: Digest, routeKeyCount: nat)

  datatype CandidateOpening = CandidateOpening(
    routeKey: Bytes, candidateSet: Option<CandidateSet>, proof: Proof, rootHash: Digest)
  {
    /** `value_bytes`; encoding may raise. */
    function ValueBytes(h: Bytes -> Digest): (v: Result<Option<Bytes>>) {
      if candidateSet.None? then Ok(None)
      else
        var b :- candidateSet.value.CanonicalBytes(h);
        Ok(Some(b))
    }

    /** What a client checks of an opening. */
    predicate Verifies(smt: Smt) {
      && proof.key == routeKey
      && (candidateSet.Some? ==> candidateSet.value.routeKey == routeKey)
      && ValueBytes(smt.h).Ok? && smt.Accepts(proof, rootHash, ValueBytes(smt.h).value)
    }
  }

  /** One verifying opening per token, all against the same root. */
  predicate AllOpened(smt: Smt, openings: seq<CandidateOpening>, tokens: seq<Bytes>, rootHash: Digest) {
    |openings| == |tokens| && forall i :: 0 <= i < |tokens| ==>
      openings[i].routeKey == tokens[i] && openings[i].Verifies(smt) && openings[i].rootHash == rootHash
  }

  datatype AuthenticatedLookup = AuthenticatedLookup(
    openings: seq<CandidateOpening>, references: seq<Reference>, complete: bool, proofVerified: bool, totalAvailable: nat)
  {
    function ToLookupResult(shortId: Option<Bytes>): (r: LookupResult) {
      var sid := if shortId.Some? then shortId.value else if references != [] then references[0].shortId else seq(8, _ => 0);
      LookupResult(sid, references, complete && proofVerified, totalAvailable)
    }

    /** It says what the lookup result says. */
    predicate Carries(r: LookupResult) {
      references == r.references && complete == r.complete && totalAvailable == r.totalAvailable
    }
  }

  /** Rows have 32-byte keys and are non-empty lists of valid references. */
  ghost predicate Rows(utf8: Utf8, b: Buckets) {
    forall k <- b :: |k| == 32 && b[k] != [] && forall r <- b[k] :: r.Valid(utf8)
  }

  /** Every candidate set has an encoding: no length reaches 2^64. */
  predicate Encodable(h: Bytes -> Digest, b: Buckets) {
    forall k <- b :: SetOf(k, b[k]).CanonicalBytes(h).Ok?
  }

  /** The map entries are the candidate sets of exactly the buckets. */
  ghost predicate Commits(h: Bytes -> Digest, entries: map<Bytes, Bytes>, b: Buckets) {
    && entries.Keys == b.Keys
    && forall k <- b :: SetOf(k, b[k]).CanonicalBytes(h) == Ok(entries[k])
  }

  /** The candidate set a client sees for a route key: the complete bucket, sorted. */
  function Shown(h: Bytes -> Digest, b: Buckets, routeKey: Bytes): (cs: Option<CandidateSet>) {
    if routeKey in b then Some(SetOf(routeKey, b[routeKey]).Sorted(h)) else None
  }

  /** A client sees every reference of the bucket, in order, and no more; or that there is no bucket. */
  predicate ShowsBucket(h: Bytes -> Digest, b: Buckets, routeKey: Bytes, cs: Option<CandidateSet>) {
    if routeKey !in b then cs == None
    else
      && cs.Some? && cs.value.routeKey == routeKey && cs.value.version == 1 && cs.value.metadata == []
      && cs.value.complete && cs.value.totalAvailable == Some(|b[routeKey]|)
      && multiset(cs.value.references) == multiset(b[routeKey]) && InSortOrder(h, cs.value.references)
  }

  lemma ShownShows(h: Bytes -> Digest, b: Buckets, routeKey: Bytes)
    ensures ShowsBucket(h, b, routeKey, Shown(h, b, routeKey))
  {
    hide SortedReferences;
    if routeKey in b {
      SortedReferencesPermute(h, b[routeKey]);
      SortedReferencesInOrder(h, b[routeKey]);
    }
  }

  /** What is stored for a bucket decodes exactly when all storage hints have a type and a location. */
  lemma BucketDecodes(utf8: Utf8, h: Bytes -> Digest, entries: map<Bytes, Bytes>, b: Buckets, k: Bytes)
    requires TakesAscii(utf8) && Rows(utf8, b) && Commits(h, entries, b) && k in b
    ensures CandidateSetFromBytes(utf8, entries[k]) == if SoundReferences(b[k]) then Ok(SetOf(k, b[k]).Sorted(h)) else Err
    ensures SetOf(k, b[k]).Sorted(h).CanonicalBytes(h) == Ok(entries[k])
  {
    hide Reference.Valid, CandidateSet.CanonicalBytes, CandidateSetFromBytes, CandidateSet.Sorted, SoundReferences;
    EmptyMetadata(utf8);
    CandidateSetRoundTrip(utf8, h, SetOf(k, b[k]));
  }

  lemma EmptyMetadata(utf8: Utf8)
    ensures IsCanonical(utf8, Dict([]))
  {
  }

  /** Every set has an encoding, and what is stored for the tokens decodes again. */
  predicate Answerable(h: Bytes -> Digest, b: Buckets, tokens: seq<Bytes>) {
    Encodable(h, b) && forall t <- tokens :: SoundReferences(Bucket(b, t))
  }

  /** What a lookup of the authenticated index returns. */
  function AuthenticatedResult(h: Bytes -> Digest, b: Buckets, tokens: seq<Bytes>, q: Query, min: int, max: Option<int>)
    : (r: Result<LookupResult>)
  {
    if min > 0 && Answerable(h, b, tokens) then Ok(AuthenticatedAnswer(h, b, tokens, q, min, max)) else Err
  }

  /** What a lookup of the plain index returns. */
  function PlainResult(keys: RouteIndex.Keys, b: Buckets, tokens: seq<Bytes>, q: Query, min: int, max: Option<int>)
    : (r: Result<LookupResult>)
  {
    if min > 0 then Ok(PlainAnswer(keys, b, tokens, q, min, max)) else Err
  }

  class Index {
    const smt: Smt
    const utf8: Utf8
    var buckets: Buckets
    var tree: SparseMerkleMap?
    var root: Option<RootRecord>

    ghost predicate Valid()
      reads this, tree
    {
      && smt.Valid() && smt.keyBytes == 32 && TakesAscii(utf8) && Rows(utf8, buckets) && NoneTwice(Keys(), buckets)
      && (tree != null ==> tree.Valid() && tree.smt == smt && Commits(smt.h, tree.entries, buckets))
      && (root.Some? ==> tree != null && root.value == RootRecord(smt.Root(tree.entries), |buckets|))
    }

    function Keys(): RouteIndex.Keys {
      Authenticated(smt.h)
    }

    constructor (h: Bytes -> Digest, utf8: Utf8)
      requires TakesAscii(utf8)
      ensures Valid() && smt == Smt(h, 32) && this.utf8 == utf8 && buckets == map[]
    {
      smt, this.utf8 := Smt(h, 32), utf8;
      buckets, tree, root := map[], null, None;
    }

    method AddReference(r: Reference, tokens: seq<Bytes>)
      requires Valid() && r.Valid(utf8) && forall t <- tokens :: |t| == 32
      modifies this
      ensures Valid() && buckets == Added(Keys(), old(buckets), r, tokens)
      ensures root == None && tree == null
    {
      hide Reference.Valid, Append, TakesAscii, Rows, Commits, SparseMerkleMap.Valid, Smt.Root, Smt.Valid, NoneTwice;
      root, tree := None, null;
      for i := 0 to |tokens|
        invariant root == None && tree == null && Rows(utf8, buckets)
        invariant buckets == Added(Keys(), old(buckets), r, tokens[..i])
      {
        assert tokens[..i + 1][..i] == tokens[..i];
        var bucket := Bucket(buckets, tokens[i]);
        RowsGrow(utf8, Keys(), buckets, r, tokens[i]);
        buckets := buckets[tokens[i] := Append(Keys(), bucket, r)];
      }
      assert tokens[..|tokens|] == tokens;
      AddedDistinct(Keys(), old(buckets), r, tokens);
    }

    /** Build the snapshot if it is out of date; fails exactly when a set has no encoding. */
    method EnsureBuilt() returns (ok: bool)
      requires Valid()
      modifies this`tree, this`root
      ensures Valid() && (tree == old(tree) || fresh(tree))
      ensures ok ==> root.Some? && tree != null
      ensures ok <==> Encodable(smt.h, buckets)
      ensures old(root).Some? ==> root == old(root) && tree == old(tree)
    {
      hide TakesAscii, Rows, Commits, Encodable, SparseMerkleMap.Valid, Smt.Root, Smt.Keyed;
      if tree != null && root.Some? {
        CommitsEncodable(smt.h, tree.entries, buckets);
        return true;
      }
      var entries := BuildEntries(smt.h, buckets);
      if entries.Err? {
        return false;
      }
      EntriesKeyed(smt, utf8, entries.value, buckets);
      tree := new SparseMerkleMap(smt, entries.value);
      var rootHash := tree.RootHash();
      root := Some(RootRecord(rootHash, |buckets|));
      ok := true;
    }

    /**
      The opening of a route key: it fails exactly when some set has no encoding or a reference of
      the bucket has a storage hint without type or location.  Otherwise it verifies, and shows
      the complete bucket, sorted, or that there is none.
      */
    method OpenRouteKey(routeKey: Bytes) returns (r: Result<CandidateOpening>)
      requires Valid() && |routeKey| == 32
      modifies this`tree, this`root, tree
      ensures Valid() && (tree == old(tree) || fresh(tree))
      ensures r.Ok? <==> Encodable(smt.h, buckets) && SoundReferences(Bucket(buckets, routeKey))
      ensures r.Ok? ==> root.Some? && tree != null && r.value.Verifies(smt)
      ensures r.Ok? ==> r.value.routeKey == routeKey && r.value.rootHash == root.value.rootHash
      ensures r.Ok? ==> r.value.candidateSet == Shown(smt.h, buckets, routeKey)
      ensures r.Ok? ==> ShowsBucket(smt.h, buckets, routeKey, r.value.candidateSet)
      ensures old(root).Some? ==> root == old(root) && tree == old(tree)
    {
      hide TakesAscii, Rows, Commits, Encodable, Smt.Root, Smt.Keyed, Smt.WalkUp, CandidateSetFromBytes,
        CandidateSet.CanonicalBytes, CandidateSet.Sorted, SoundReferences, ShowsBucket;
      var ok := EnsureBuilt();
      ShownShows(smt.h, buckets, routeKey);
      if !ok {
        return Err;
      }
      var opening := tree.Open(routeKey);
      var candidateSet: Option<CandidateSet> := None;
      OpenedDecodes(utf8, smt, tree.entries, buckets, routeKey);
      if opening.value.Some? {
        var cs := CandidateSetFromBytes(utf8, opening.value.value);
        if cs.Err? {
          return Err;
        }
        candidateSet := Some(cs.value);
      }
      var typed := CandidateOpening(routeKey, candidateSet, opening.proof, root.value.rootHash);
      var verified := VerifyOpening(smt, typed);
      if !verified {
        return Err;
      }
      r := Ok(typed);
    }

    /** Openings of all tokens from one built snapshot, unless one of them fails. */
    method OpenAll(tokens: seq<Bytes>) returns (openings: Result<seq<CandidateOpening>>)
      requires Valid() && root.Some? && Encodable(smt.h, buckets) && forall t <- tokens :: |t| == 32
      modifies this`tree, this`root, tree
      ensures Valid() && root == old(root) && tree == old(tree)
      ensures openings.Ok? <==> forall t <- tokens :: SoundReferences(Bucket(buckets, t))
      ensures openings.Ok? ==> AllOpened(smt, openings.value, tokens, root.value.rootHash)
      ensures openings.Ok? ==> AllShown(smt.h, buckets, openings.value, tokens)
    {
      hide TakesAscii, Rows, Commits, Encodable, Smt.Root, Smt.Keyed, SparseMerkleMap.Valid, CandidateOpening.Verifies,
        Shown, SoundReferences, ShowsBucket, NoneTwice;
      var list: seq<CandidateOpening> := [];
      for i := 0 to |tokens|
        invariant Valid() && root == old(root) && tree == old(tree)
        invariant AllOpened(smt, list, tokens[..i], root.value.rootHash)
        invariant AllShown(smt.h, buckets, list, tokens[..i])
        invariant forall j :: 0 <= j < i ==> SoundReferences(Bucket(buckets, tokens[j]))
      {
        var opening := OpenRouteKey(tokens[i]);
        if opening.Err? {
          return Err;
        }
        list := list + [opening.value];
      }
      assert tokens[..|tokens|] == tokens;
      openings := Ok(list);
    }

    /**
      Open every token's route key, check the proofs, count the passing references and rank those
      hit often enough.  The answer is the capped ranking of the hits that pass.
      */
    method LookupAuthenticated(tokens: seq<Bytes>, q: Query, min: int, max: Option<int>) returns (r: Result<AuthenticatedLookup>)
      requires Valid() && forall t <- tokens :: |t| == 32
      modifies this`tree, this`root, tree
      ensures Valid() && (tree == old(tree) || fresh(tree))
      ensures r.Ok? <==> min > 0 && Answerable(smt.h, buckets, tokens)
      ensures r.Ok? ==> tree != null && r.value.proofVerified && AllOpened(smt, r.value.openings, tokens, smt.Root(tree.entries))
      ensures r.Ok? ==> AllShown(smt.h, buckets, r.value.openings, tokens)
      ensures r.Ok? ==> r.value.ToLookupResult(q.shortId) == AuthenticatedAnswer(smt.h, buckets, tokens, q, min, max)
      ensures r.Ok? ==> r.value.Carries(r.value.ToLookupResult(q.shortId))
      ensures r.Ok? ==> exists all ::
        RanksHits(smt.h, buckets, tokens, q, min, all) && Capped(all, max, q.shortId, r.value.ToLookupResult(q.shortId))
    {
      hide RanksHits, Capped, NoneTwice;
      hide TakesAscii, Rows, Commits, Encodable, Smt.Root, Smt.Keyed, SparseMerkleMap.Valid, AllShown, AllOpened,
        AuthenticatedAnswer, SoundReferences;
      if min <= 0 {
        return Err;
      }
      var ok := EnsureBuilt();
      if !ok {
        return Err;
      }
      var list := OpenAll(tokens);
      if list.Err? {
        return Err;
      }
      var answer := RankOpenings(smt, list.value, tokens, root.value.rootHash, q, min, max, buckets);
      r := Ok(answer);
      var all := AuthenticatedRanking(smt.h, buckets, tokens, q, min, max);
    }

    /** The same without the openings. */
    method LookupTokens(tokens: seq<Bytes>, q: Query, min: int, max: Option<int>) returns (r: Result<LookupResult>)
      requires Valid() && forall t <- tokens :: |t| == 32
      modifies this`tree, this`root, tree
      ensures Valid() && (tree == old(tree) || fresh(tree))
      ensures r == AuthenticatedResult(smt.h, buckets, tokens, q, min, max)
      ensures r.Ok? <==> min > 0 && Answerable(smt.h, buckets, tokens)
      ensures r.Ok? ==> exists all :: RanksHits(smt.h, buckets, tokens, q, min, all) && Capped(all, max, q.shortId, r.value)
    {
      hide AuthenticatedAnswer, Answerable, RanksHits, Capped, NoneTwice, TakesAscii, Rows, Commits, SparseMerkleMap.Valid, AllShown, AllOpened;
      var auth :- LookupAuthenticated(tokens, q, min, max);
      r := Ok(auth.ToLookupResult(q.shortId));
    }
  }

  /**
    `all` ranks what the tokens hit and the query passes, in the index's order; only references
    without a manifest key can tie.
    */
  ghost predicate RanksHits(h: Bytes -> Digest, b: Buckets, tokens: seq<Bytes>, q: Query, min: int, all: seq<Reference>) {
    && IsLooseRanking(View(Authenticated(h), q, Flat(BucketsOf(b, tokens))), all, q, min)
    && (KeyedBuckets(b) ==> IsRanking(View(Authenticated(h), q, Flat(BucketsOf(b, tokens))), all, q, min))
  }

  lemma AuthenticatedRanking(h: Bytes -> Digest, b: Buckets, tokens: seq<Bytes>, q: Query, min: int, max: Option<int>)
    returns (all: seq<Reference>)
    requires NoneTwice(Authenticated(h), b)
    ensures RanksHits(h, b, tokens, q, min, all) && Capped(all, max, q.shortId, AuthenticatedAnswer(h, b, tokens, q, min, max))
  {
    hide IsLooseRanking, IsRanking, KeyedBuckets, Capped, AuthenticatedAnswer, NoneTwice, Flat, BucketsOf;
    all := AuthenticatedAnswerRanks(h, b, tokens, q, min, max);
  }

  lemma CommitsEncodable(h: Bytes -> Digest, entries: map<Bytes, Bytes>, b: Buckets)
    requires Commits(h, entries, b)
    ensures Encodable(h, b)
  {
    hide CandidateSet.CanonicalBytes;
  }

  /** Check, count and rank what the openings show. */
  method RankOpenings(smt: Smt, openings: seq<CandidateOpening>, tokens: seq<Bytes>, rootHash: Digest,
                      q: Query, min: int, max: Option<int>, ghost b: Buckets) returns (r: AuthenticatedLookup)
    requires smt.Valid() && AllOpened(smt, openings, tokens, rootHash) && AllShown(smt.h, b, openings, tokens) && min > 0
    ensures r.openings == openings && r.proofVerified && r.Carries(r.ToLookupResult(q.shortId))
    ensures r.ToLookupResult(q.shortId) == AuthenticatedAnswer(smt.h, b, tokens, q, min, max)
  {
    hide SortedByHits, Kept, AllShown, AllOpened, TallyAll;
    var keys := Authenticated(smt.h);
    var verified, complete := CheckAll(smt, openings, tokens, rootHash, b);
    var tally := TallyOpenings(keys, openings, tokens, q, b);
    var ranked := SortedByHits(keys, tally, Kept(keys, tally, EVERYTHING, min, tally.firsts));
    var report := Report(ranked, max, q.shortId);
    r := AuthenticatedLookup(openings, report.references, complete && report.complete, verified, |ranked|);
  }

  /** Every opening shows the complete bucket of its token. */
  predicate AllShown(h: Bytes -> Digest, b: Buckets, openings: seq<CandidateOpening>, tokens: seq<Bytes>) {
    |openings| == |tokens| && forall i :: 0 <= i < |tokens| ==> openings[i].candidateSet == Shown(h, b, tokens[i])
  }

  /** Verify every opening against the root, and look for incomplete candidate sets. */
  method CheckAll(smt: Smt, openings: seq<CandidateOpening>, tokens: seq<Bytes>, rootHash: Digest, ghost b: Buckets)
    returns (verified: bool, complete: bool)
    requires smt.Valid() && AllOpened(smt, openings, tokens, rootHash) && AllShown(smt.h, b, openings, tokens)
    ensures verified && complete
  {
    hide Smt.WalkUp, CandidateSet.CanonicalBytes, SortedReferences;
    verified, complete := true, true;
    for i := 0 to |openings|
      invariant verified && complete
    {
      var ok := VerifyOpening(smt, openings[i]);
      verified := verified && ok && openings[i].rootHash == rootHash;
      if openings[i].candidateSet.Some? && !openings[i].candidateSet.value.complete {
        complete := false;
      }
    }
  }

  /** `opening.references` */
  function ReferencesOf(opening: CandidateOpening): seq<Reference> {
    if opening.candidateSet.Some? then opening.candidateSet.value.references else []
  }

  lemma ShownReferences(h: Bytes -> Digest, b: Buckets, opening: CandidateOpening, token: Bytes)
    requires opening.candidateSet == Shown(h, b, token)
    ensures ReferencesOf(opening) == SortedReferences(h, Bucket(b, token))
  {
  }

  /** Count the passing references of all openings. */
  method TallyOpenings(keys: RouteIndex.Keys, openings: seq<CandidateOpening>, tokens: seq<Bytes>, q: Query, ghost b: Buckets)
    returns (t: Tally)
    requires keys.Authenticated? && AllShown(keys.h, b, openings, tokens)
    ensures t == TallyAll(keys, q, SortedBuckets(keys.h, b, tokens))
  {
    hide Tallied, Shown, SortedReferences;
    t := Tally([], map[]);
    for i := 0 to |openings|
      invariant t == TallyAll(keys, q, SortedBuckets(keys.h, b, tokens[..i]))
    {
      assert SortedBuckets(keys.h, b, tokens[..i + 1])[..i] == SortedBuckets(keys.h, b, tokens[..i]);
      ShownReferences(keys.h, b, openings[i], tokens[i]);
      t := TallyBucket(keys, t, ReferencesOf(openings[i]), q);
    }
    assert tokens[..|tokens|] == tokens;
  }

  /** What is stored for a key decodes, if at all, to what is shown, and encodes back to the same bytes. */
  lemma OpenedDecodes(utf8: Utf8, smt: Smt, entries: map<Bytes, Bytes>, b: Buckets, k: Bytes)
    requires TakesAscii(utf8) && Rows(utf8, b) && Commits(smt.h, entries, b)
    ensures var v, cs := smt.Lookup(entries, k), Shown(smt.h, b, k);
      && (v.Some? <==> cs.Some?)
      && (v.Some? ==> CandidateSetFromBytes(utf8, v.value) == (if SoundReferences(Bucket(b, k)) then Ok(cs.value) else Err))
      && (v.Some? ==> cs.value.routeKey == k && cs.value.CanonicalBytes(smt.h) == Ok(v.value))
      && (v.None? ==> SoundReferences(Bucket(b, k)))
  {
    hide Reference.Valid, Reference.Sound, CandidateSet.CanonicalBytes, CandidateSetFromBytes, TakesAscii;
    if k in b { BucketDecodes(utf8, smt.h, entries, b, k); }
  }

  /**
    A client's check of an opening against its root: the proof is for the route key, the candidate
    set too, and the proof is accepted for the set's bytes, or for absence.
    */
  method VerifyOpening(smt: Smt, opening: CandidateOpening) returns (ok: bool)
    requires smt.Valid() && smt.WellFormed(opening.proof)
    ensures ok <==> opening.Verifies(smt)
    ensures ok <==> opening.proof.key == opening.routeKey && if opening.candidateSet.None?
      then smt.Accepts(opening.proof, opening.rootHash, None)
      else
        var cs := opening.candidateSet.value;
        cs.routeKey == opening.routeKey && cs.CanonicalBytes(smt.h).Ok?
        && smt.Accepts(opening.proof, opening.rootHash, Some(cs.CanonicalBytes(smt.h).value))
  {
    hide Smt.Accepts, CandidateSet.CanonicalBytes;
    if opening.proof.key != opening.routeKey {
      return false;
    }
    if opening.candidateSet.Some? && opening.candidateSet.value.routeKey != opening.routeKey {
      return false;
    }
    var value := opening.ValueBytes(smt.h);
    if value.Err? {
      return false;
    }
    ok := smt.Verify(opening.proof, opening.rootHash, value.value);
  }

  lemma RowsGrow(utf8: Utf8, keys: Keys, b: Buckets, r: Reference, token: Bytes)
    requires Rows(utf8, b) && r.Valid(utf8) && |token| == 32
    ensures Rows(utf8, b[token := Append(keys, Bucket(b, token), r)])
  {
    hide Reference.Valid, Keys.Of;
  }

  lemma EntriesKeyed(smt: Smt, utf8: Utf8, entries: map<Bytes, Bytes>, b: Buckets)
    requires smt.keyBytes == 32 && Rows(utf8, b) && Commits(smt.h, entries, b)
    ensures smt.Keyed(entries)
  {
    hide Reference.Valid, CandidateSet.CanonicalBytes;
  }

  /** The encoded candidate set of every bucket. */
  method BuildEntries(h: Bytes -> Digest, b: Buckets) returns (entries: Result<map<Bytes, Bytes>>)
    ensures entries.Ok? <==> Encodable(h, b)
    ensures entries.Ok? ==> Commits(h, entries.value, b)
  {
    hide CandidateSet.CanonicalBytes;
    var built: map<Bytes, Bytes> := map[];
    var todo := b.Keys;
    while todo != {}
      invariant todo <= b.Keys && built.Keys == b.Keys - todo
      invariant forall k <- built :: SetOf(k, b[k]).CanonicalBytes(h) == Ok(built[k])
    {
      var k :| k in todo;
      var bytes := SetOf(k, b[k]).CanonicalBytes(h);
      if bytes.Err? {
        return Err;
      }
      built := built[k := bytes.value];
      todo := todo - {k};
    }
    entries := Ok(built);
  }

  // ----- authenticity -----

  /**
    Authenticity of a bucket without assuming anything about the hash: an opening that verifies
    against the index's root but does not show the complete bucket yields a collision.
    */
  ghost function ForgedBucketCollision(smt: Smt, utf8: Utf8, entries: map<Bytes, Bytes>, b: Buckets, opening: CandidateOpening): (c: (Bytes, Bytes))
    requires smt.Valid() && smt.keyBytes == 32 && TakesAscii(utf8) && Rows(utf8, b) && Commits(smt.h, entries, b)
    requires opening.Verifies(smt) && opening.rootHash == smt.Root(entries)
    requires opening.candidateSet.Some? ==> opening.candidateSet.value.Valid(utf8)
    requires Claimed(smt.h, opening) != Shown(smt.h, b, opening.routeKey)
    ensures smt.Collides(c.0, c.1)
  {
    EntriesKeyed(smt, utf8, entries, b);
    MisstatedValue(smt, utf8, entries, b, opening);
    smt.ForgeryCollision(entries, opening.proof, opening.ValueBytes(smt.h).value)
  }

  /** The candidate set an opening claims, in canonical order. */
  function Claimed(h: Bytes -> Digest, opening: CandidateOpening): Option<CandidateSet> {
    if opening.candidateSet.Some? then Some(opening.candidateSet.value.Sorted(h)) else None
  }

  lemma MisstatedValue(smt: Smt, utf8: Utf8, entries: map<Bytes, Bytes>, b: Buckets, opening: CandidateOpening)
    requires TakesAscii(utf8) && Rows(utf8, b) && Commits(smt.h, entries, b) && opening.Verifies(smt)
    requires opening.candidateSet.Some? ==> opening.candidateSet.value.Valid(utf8)
    requires Claimed(smt.h, opening) != Shown(smt.h, b, opening.routeKey)
    ensures opening.ValueBytes(smt.h).value != smt.Lookup(entries, opening.routeKey)
  {
    hide TakesAscii, Reference.Valid, CandidateSet.CanonicalBytes, CandidateSetFromBytes, CandidateSet.Sorted, Smt.WalkUp,
      SoundReferences;
    hide Smt.Accepts;
    var k := opening.routeKey;
    if k in b && opening.candidateSet.Some? && opening.candidateSet.value.CanonicalBytes(smt.h) == Ok(entries[k]) {
      EmptyMetadata(utf8);
      CandidateSetInjective(utf8, smt.h, opening.candidateSet.value, SetOf(k, b[k]));
      assert false;
    }
  }

  // ----- what the authenticated index owes the plain one -----

  /** A lookup returns or raises alike in both indices after the same history. */
  predicate ResultsAgree(docHash: Bytes -> Bytes, h: Bytes -> Digest, history: History, tokens: seq<Bytes>,
                         q: Query, min: int, max: Option<int>) {
    PlainResult(Plain(docHash), Replay(Plain(docHash), history), tokens, q, min, max)
    == AuthenticatedResult(h, Replay(Authenticated(h), history), tokens, q, min, max)
  }

  /**
    The refinement with its exact condition, lookup by lookup: where equal manifest keys go with
    equal short ids and namespaces, a lookup with a short id returns the same in both indices if
    and only if both refuse the threshold, or every set has an encoding and every reference in
    the buckets asked for has only hints with a type and a location.
    */
  lemma ShortIdResultsAgree(docHash: Bytes -> Bytes, h: Bytes -> Digest, history: History, tokens: seq<Bytes>,
                            q: Query, min: int, max: Option<int>)
    requires AllKeyed(Referenced(history)) && Consistent(HeldAfter(docHash, history)) && q.shortId.Some?
    ensures ResultsAgree(docHash, h, history, tokens, q, min, max)
      <==> min <= 0 || Answerable(h, Replay(Authenticated(h), history), tokens)
  {
    hide AllKeyed, Consistent, HeldAfter, Replay, Answerable, PlainAnswer, AuthenticatedAnswer;
    LookupsAgree(docHash, h, history, tokens, q, min, max);
  }

  ghost predicate SoundReferencesIn(b: Buckets) {
    forall k <- b :: SoundReferences(b[k])
  }

  /** Nothing keeps the authenticated index from answering. */
  ghost predicate AlwaysAnswers(h: Bytes -> Digest, b: Buckets) {
    Encodable(h, b) && SoundReferencesIn(b)
  }

  lemma NoReferences()
    ensures SoundReferences([])
  {
  }

  /** Where it does answer, the results agree when the answers do. */
  lemma AnswersSuffice(docHash: Bytes -> Bytes, h: Bytes -> Digest, history: History, tokens: seq<Bytes>,
                       q: Query, min: int, max: Option<int>)
    requires AlwaysAnswers(h, Replay(Authenticated(h), history))
    requires AnswersAgree(docHash, h, history, tokens, q, min, max)
    ensures ResultsAgree(docHash, h, history, tokens, q, min, max)
  {
    hide Replay, PlainAnswer, AuthenticatedAnswer, Encodable, SoundReferences;
    NoReferences();
  }

  /** Where it does not, some lookup with a short id raises in one index only. */
  lemma UnansweredDiffer(docHash: Bytes -> Bytes, h: Bytes -> Digest, history: History) returns (tokens: seq<Bytes>, q: Query)
    requires !AlwaysAnswers(h, Replay(Authenticated(h), history))
    ensures q.shortId.Some? && !ResultsAgree(docHash, h, history, tokens, q, 1, None)
  {
    hide Replay, PlainAnswer, AuthenticatedAnswer, Encodable, SoundReferences;
    var b := Replay(Authenticated(h), history);
    q := Query(Some([]), None);
    if !Encodable(h, b) {
      tokens := [];
    } else {
      var k :| k in b && !SoundReferences(b[k]);
      tokens := [k];
      assert k in tokens;
    }
  }

  /** Lookups that are answered differently do not return the same. */
  lemma DifferentAnswers(docHash: Bytes -> Bytes, h: Bytes -> Digest, history: History, tokens: seq<Bytes>, q: Query, max: Option<int>)
    requires !AnswersAgree(docHash, h, history, tokens, q, 1, max)
    ensures !ResultsAgree(docHash, h, history, tokens, q, 1, max)
  {
    hide Replay, PlainAnswer, AuthenticatedAnswer, Answerable;
  }

  /**
    All lookups with a short id return the same in both indices if and only if every set has an
    encoding, every hint has a type and a location, and equal manifest keys go with equal short
    ids and namespaces.
    */
  lemma ShortIdResultsAgreeIff(docHash: Bytes -> Bytes, h: Bytes -> Digest, history: History)
    requires AllKeyed(Referenced(history))
    ensures (forall tokens, q: Query, min, max :: q.shortId.Some? ==> ResultsAgree(docHash, h, history, tokens, q, min, max))
      <==> AlwaysAnswers(h, Replay(Authenticated(h), history)) && Consistent(HeldAfter(docHash, history))
  {
    hide AllKeyed, Replay, AlwaysAnswers, HeldAfter, SameRoute, ResultsAgree, AnswersAgree;
    var held := HeldAfter(docHash, history);
    if !AlwaysAnswers(h, Replay(Authenticated(h), history)) {
      var tokens, q := UnansweredDiffer(docHash, h, history);
    } else if !Consistent(held) {
      var r, s :| r in held && s in held && r.manifestKey == s.manifestKey && !SameRoute(r, s);
      var tokens, q := InconsistentDiffer(docHash, h, history, r, s);
      DifferentAnswers(docHash, h, history, tokens, q, None);
    } else {
      forall tokens, q: Query, min, max | q.shortId.Some? ensures ResultsAgree(docHash, h, history, tokens, q, min, max) {
        LookupsAgree(docHash, h, history, tokens, q, min, max);
        AnswersSuffice(docHash, h, history, tokens, q, min, max);
      }
    }
  }

  /**
    Every lookup, with a short id or without, returns the same in both indices if and only if in
    addition no held reference with a smaller manifest key has a larger short id.
    */
  lemma AllResultsAgree(docHash: Bytes -> Bytes, h: Bytes -> Digest, history: History)
    requires AllKeyed(Referenced(history))
    ensures (forall tokens, q, min, max :: ResultsAgree(docHash, h, history, tokens, q, min, max))
      <==> AlwaysAnswers(h, Replay(Authenticated(h), history)) && Consistent(HeldAfter(docHash, history))
           && Aligned(HeldAfter(docHash, history))
  {
    hide AllKeyed, Replay, AlwaysAnswers, HeldAfter, SameRoute, ResultsAgree, AnswersAgree, Inverted, Consistent;
    var held := HeldAfter(docHash, history);
    ShortIdResultsAgreeIff(docHash, h, history);
    if AlwaysAnswers(h, Replay(Authenticated(h), history)) && Consistent(held) {
      if Aligned(held) {
        forall tokens, q, min, max ensures ResultsAgree(docHash, h, history, tokens, q, min, max) {
          AlignedAgree(docHash, h, history, tokens, q, min, max);
          AnswersSuffice(docHash, h, history, tokens, q, min, max);
        }
      } else {
        var r, s :| r in held && s in held && Inverted(r, s);
        var tokens := InvertedDiffer(docHash, h, history, r, s);
        DifferentAnswers(docHash, h, history, tokens, EVERYTHING, None);
      }
    }
  }

  // ----- a hint the index stores but cannot read back -----

  /** A reference as derived from a manifest, with a hint whose type is empty. */
  function Unreadable(): (r: Reference)
    ensures Derived(r)
  {
    Reference(seq(8, _ => 0), Some(seq(20, _ => 0)), None, None, [StorageHint([], Ascii("ipfs://x"), None, [])], None,
              Ascii(HASH_TRUNCATED), None, [])
  }

  lemma UnreadableValid(utf8: Utf8)
    requires TakesAscii(utf8)
    ensures Unreadable().Valid(utf8) && !Unreadable().Sound()
  {
    hide Ascii, HASH_TRUNCATED;
    assert utf8(Ascii(""));
    assert Ascii("") == [];
    assert Unreadable().storageHints[0] in Unreadable().storageHints;
  }

  lemma HintEncodes(x: StorageHint)
    requires AllEncoded(x.Values())
    ensures Encode(x.Wire()).Ok?
  {
    hide Encode, Record, Telling;
    NamesTell();
    RecordEncodes(HintNames(), x.Values());
  }

  /** Small fields have an encoding. */
  lemma HintFits(x: StorageHint)
    requires |x.kind| < U64_LIMIT && |x.uri| < U64_LIMIT && x.contentHash == None && x.metadata == []
    ensures Encode(x.Wire()).Ok?
  {
    hide Encode, StorageHint.Wire;
    var v := x.Values();
    assert Encode(v[0]).Ok? by { LeafEncodes(x.kind, 0, true); }
    assert Encode(v[1]).Ok? by { LeafEncodes(x.uri, 0, true); }
    assert Encode(v[2]).Ok? && Encode(v[3]).Ok? by { LeafEncodes([], 0, true); }
    HintEncodes(x);
  }

  lemma ReferenceFits(r: Reference)
    requires |r.shortId| == 8 && r.manifestKey.Some? && |r.manifestKey.value| == 20 && |r.derivation| < U64_LIMIT
    requires r.manifestHash == r.documentBytes == r.namespaceId == r.createdAt == None && r.metadata == []
    requires |r.storageHints| == 1 && Encode(r.storageHints[0].Wire()).Ok?
    ensures Encode(r.Wire()).Ok?
  {
    hide Encode, Reference.Wire, StorageHint.Wire, Reference.Values;
    var v := r.Values();
    FieldsOf(r);
    assert Encode(v[0]).Ok? by { LeafEncodes(r.shortId, 0, true); }
    assert Encode(v[1]).Ok? by { LeafEncodes(r.manifestKey.value, 0, true); }
    assert Encode(v[2]).Ok? && Encode(v[3]).Ok? && Encode(v[5]).Ok? && Encode(v[7]).Ok? && Encode(v[8]).Ok? by {
      LeafEncodes([], 0, true);
    }
    assert Encode(v[4]).Ok? by { ArrayEncodes(HintWires(r.storageHints)); }
    assert Encode(v[6]).Ok? by { LeafEncodes(r.derivation, 0, true); }
    ReferenceEncodes(r);
  }

  lemma FieldsOf(r: Reference)
    ensures var v := r.Values();
      && v[0] == Blob(r.shortId) && v[1] == OptBlob(r.manifestKey) && v[2] == OptBlob(r.manifestHash)
      && v[3] == OptBlob(r.documentBytes) && v[4] == Array(HintWires(r.storageHints)) && v[5] == OptBlob(r.namespaceId)
      && v[6] == Text(r.derivation) && v[7] == OptText(r.createdAt) && v[8] == Dict(r.metadata)
  {
  }

  lemma UnreadableEncodes()
    ensures Encode(Unreadable().Wire()).Ok?
  {
    var r := Unreadable();
    assert |Ascii("ipfs://x")| == 8 && |Ascii(HASH_TRUNCATED)| < 100;
    hide Encode, Reference.Wire, StorageHint.Wire, Ascii, HASH_TRUNCATED;
    HintFits(r.storageHints[0]);
    ReferenceFits(r);
  }

  lemma OneReferenceEncodes(h: Bytes -> Digest, token: Bytes, r: Reference)
    requires |token| == 32 && Encode(r.Wire()).Ok?
    ensures Encodable(h, map[token := [r]])
  {
    hide Encode, Reference.Wire, SortedReferences;
    var cs := SetOf(token, [r]);
    var refs := SortedReferences(h, [r]);
    SortedMembers(h, [r]);
    assert refs[0] in refs && refs == [r];
    assert Encode(Array(ReferenceWires(refs))).Ok? by { ArrayEncodes(ReferenceWires(refs)); }
    assert AllEncoded(cs.Values(h)) by { LeafEncodes(token, 1, true); }
    SetEncodes(h, cs);
  }

  /**
    One derived reference with such a hint, added under one token: its set has an encoding and the
    plain index finds it, but every authenticated lookup of the token raises.
    */
  lemma UnreadableHintRaises(utf8: Utf8, docHash: Bytes -> Bytes, h: Bytes -> Digest, token: Bytes)
    requires TakesAscii(utf8) && |token| == 32
    ensures var r := Unreadable();
      var history := [(r, [token])];
      && r.Valid(utf8) && Encodable(h, Replay(Authenticated(h), history))
      && PlainAnswer(Plain(docHash), Replay(Plain(docHash), history), [token], EVERYTHING, 1, None).references == [r]
      && forall q, min, max :: AuthenticatedResult(h, Replay(Authenticated(h), history), [token], q, min, max) == Err
  {
    var r := Unreadable();
    assert r.storageHints[0] in r.storageHints && !r.Sound();
    UnreadableValid(utf8);
    hide Encode, Reference.Wire, Reference.Valid, Unreadable, Replay, PlainAnswer, Encodable, Reference.Sound;
    UnreadableEncodes();
    OneReferenceEncodes(h, token, r);
    SingleAnswer(docHash, h, r, token);
    assert token in [token] && r in [r];
  }
}
