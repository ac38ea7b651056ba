/**
  The SHORT64-HV route indices: the plain multimap from route keys to references, and the order
  in which either index ranks what a set of route tokens hits.
  */
module RouteIndex {
  import opened Wrappers
  import opened Digits
  import opened Hashes
  import opened Lex
  import opened Ranking
  import opened References
  import opened FieldNames
  import opened Candidates

  // ----- reference keys -----

  function HexDigit(n: nat): (d: byte)
    requires n < 16
  {
    if n < 10 then 48 + n else 87 + n
  }

  lemma HexDigits(n: nat)
    requires n < 16
    ensures HexDigit(n) as char == "0123456789abcdef"[n]
  {
  }

  /** The ASCII bytes of `value.hex()`. */
  function Hex(b: Bytes): (t: Bytes)
    ensures |t| == 2 * |b|
  {
    if b == [] then [] else [HexDigit(b[0] / 16), HexDigit(b[0] % 16)] + Hex(b[1..])
  }

  /** Hex text sorts as the bytes do. */
  lemma {:induction false} HexOrder(a: Bytes, b: Bytes)
    ensures Less(Hex(a), Hex(b)) <==> Less(a, b)
    ensures Hex(a) == Hex(b) <==> a == b
  {
    if a != [] && b != [] {
      HexOrder(a[1..], b[1..]);
      var s, t := Hex(a), Hex(b);
      assert s[1..][0] == s[1] && t[1..][0] == t[1];
      assert s[1..][1..] == Hex(a[1..]) && t[1..][1..] == Hex(b[1..]);
      assert a == [a[0]] + a[1..] && b == [b[0]] + b[1..];
    }
  }

  lemma {:induction false} PrefixOrder(p: Bytes, a: Bytes, b: Bytes)
    ensures Less(p + a, p + b) <==> Less(a, b)
  {
    if p == [] {
      assert p + a == a && p + b == b;
    } else {
      assert (p + a)[1..] == p[1..] + a && (p + b)[1..] == p[1..] + b;
      PrefixOrder(p[1..], a, b);
    }
  }

  /** The two deduplication keys, as ASCII text.  Python's `hash` of a document is a parameter. */
  datatype Keys = Plain(docHash: Bytes -> Bytes) | Authenticated(h: Bytes -> Digest) {

    function Of(r: Reference): (k: Bytes) {
      if r.manifestKey.Some? then Ascii("mk:") + Hex(r.manifestKey.value)
      else if Authenticated? && r.manifestHash.Some? then Ascii("mh:") + Hex(r.manifestHash.value)
      else if r.documentBytes.Some? then
        Ascii("doc:") + (if Plain? then docHash(r.documentBytes.value) else Hex(h(r.documentBytes.value)))
      else Ascii("sid:") + Hex(r.shortId)
    }

    /** The tuple that breaks ties between equally often hit references. */
    function Order(r: Reference): (k: seq<Bytes>) {
      if Plain? then [Of(r)] else SortKey(h, r)
    }
  }

  type PlainKeys = k: Keys | k.Plain? witness Plain(b => b)

  // ----- buckets -----

  type Buckets = map<Bytes, seq<Reference>>

  function Bucket(b: Buckets, routeKey: Bytes): seq<Reference> {
    if routeKey in b then b[routeKey] else []
  }

  function Append(keys: Keys, bucket: seq<Reference>, r: Reference): (s: seq<Reference>) {
    if exists x <- bucket :: keys.Of(x) == keys.Of(r) then bucket else bucket + [r]
  }

  /** The buckets after one `add_reference`. */
  function Added(keys: Keys, b: Buckets, r: Reference, tokens: seq<Bytes>): (b': Buckets) {
    if tokens == [] then b
    else
      var before := Added(keys, b, r, tokens[..|tokens| - 1]);
      var token := tokens[|tokens| - 1];
      before[token := Append(keys, Bucket(before, token), r)]
  }

  type History = seq<(Reference, seq<Bytes>)>

  function Replay(keys: Keys, history: History): (b: Buckets) {
    if history == [] then map[]
    else
      var last := history[|history| - 1];
      Added(keys, Replay(keys, history[..|history| - 1]), last.0, last.1)
  }

  function Referenced(history: History): (s: set<Reference>) {
    set i | 0 <= i < |history| :: history[i].0
  }

  /** Every reference has a manifest key. */
  ghost predicate AllKeyed(refs: set<Reference>) {
    forall r <- refs :: r.manifestKey.Some?
  }

  /** All buckets draw their references from `refs`. */
  ghost predicate Draws(b: Buckets, refs: set<Reference>) {
    forall k <- b :: forall r <- b[k] :: r in refs
  }

  /** With a manifest key both indices use it. */
  lemma SameKeys(p: Keys, a: Keys, r: Reference)
    requires r.manifestKey.Some?
    ensures p.Of(r) == a.Of(r)
  {
  }

  /** The key text determines the manifest key. */
  lemma KeyInjective(keys: Keys, r: Reference, s: Reference)
    requires r.manifestKey.Some? && s.manifestKey.Some?
    ensures keys.Of(r) == keys.Of(s) <==> r.manifestKey == s.manifestKey
  {
    HexOrder(r.manifestKey.value, s.manifestKey.value);
    var p := Ascii("mk:");
    assert (p + Hex(r.manifestKey.value))[3..] == Hex(r.manifestKey.value);
    assert (p + Hex(s.manifestKey.value))[3..] == Hex(s.manifestKey.value);
  }

  /** What a reference is known by, from the best identifier down. */
  datatype Identity = ByKey(key: Bytes) | ByHash(hash: Bytes) | ByDocument(document: Bytes) | ByShortId(id: Bytes)

  /** The plain index does not look at manifest hashes. */
  function IdentityOf(keys: Keys, r: Reference): (i: Identity) {
    match (r.manifestKey, r.manifestHash, r.documentBytes)
    case (Some(k), _, _) => ByKey(k)
    case (None, Some(m), _) =>
      if keys.Authenticated? then ByHash(m) else if r.documentBytes.Some? then ByDocument(r.documentBytes.value) else ByShortId(r.shortId)
    case (None, None, Some(d)) => ByDocument(d)
    case (None, None, None) => ByShortId(r.shortId)
  }

  /** Equal digests of documents, as far as the index can tell. */
  predicate SameIdentity(keys: Keys, i: Identity, j: Identity) {
    || i == j
    || (i.ByDocument? && j.ByDocument? && (if keys.Plain? then keys.docHash(i.document) == keys.docHash(j.document)
                                           else keys.h(i.document) == keys.h(j.document)))
  }

  lemma Prefixes()
    ensures Ascii("mk:") == [109, 107, 58] && Ascii("mh:") == [109, 104, 58] && Ascii("doc:") == [100, 111, 99, 58]
    ensures Ascii("sid:") == [115, 105, 100, 58]
  {
  }

  /** The key text of an identity. */
  function TextOf(keys: Keys, i: Identity): (k: Bytes) {
    match i
    case ByKey(key) => [109, 107, 58] + Hex(key)
    case ByHash(hash) => [109, 104, 58] + Hex(hash)
    case ByDocument(d) => [100, 111, 99, 58] + (if keys.Plain? then keys.docHash(d) else Hex(keys.h(d)))
    case ByShortId(id) => [115, 105, 100, 58] + Hex(id)
  }

  lemma PrefixSame(p: Bytes, a: Bytes, b: Bytes)
    ensures p + a == p + b <==> a == b
  {
    if p + a == p + b { assert (p + a)[|p|..] == a && (p + b)[|p|..] == b; }
  }

  lemma TextIffSame(keys: Keys, i: Identity, j: Identity)
    ensures TextOf(keys, i) == TextOf(keys, j) <==> SameIdentity(keys, i, j)
  {
    var x, y := TextOf(keys, i), TextOf(keys, j);
    assert x[0] == (match i case ByKey(_) => 109 case ByHash(_) => 109 case ByDocument(_) => 100 case ByShortId(_) => 115);
    assert y[0] == (match j case ByKey(_) => 109 case ByHash(_) => 109 case ByDocument(_) => 100 case ByShortId(_) => 115);
    assert (i.ByKey? ==> x[1] == 107) && (i.ByHash? ==> x[1] == 104) && (j.ByKey? ==> y[1] == 107) && (j.ByHash? ==> y[1] == 104);
    hide Hex;
    match (i, j) {
      case (ByKey(a), ByKey(b)) => PrefixSame([109, 107, 58], Hex(a), Hex(b)); HexOrder(a, b);
      case (ByHash(a), ByHash(b)) => PrefixSame([109, 104, 58], Hex(a), Hex(b)); HexOrder(a, b);
      case (ByShortId(a), ByShortId(b)) => PrefixSame([115, 105, 100, 58], Hex(a), Hex(b)); HexOrder(a, b);
      case (ByDocument(d), ByDocument(e)) =>
        if keys.Plain? {
          PrefixSame([100, 111, 99, 58], keys.docHash(d), keys.docHash(e));
        } else {
          PrefixSame([100, 111, 99, 58], Hex(keys.h(d)), Hex(keys.h(e)));
          HexOrder(keys.h(d), keys.h(e));
        }
      case _ =>
    }
  }

  /** Two references have the same deduplication key exactly when they are known by the same. */
  lemma KeyIffIdentity(keys: Keys, r: Reference, s: Reference)
    ensures keys.Of(r) == keys.Of(s) <==> SameIdentity(keys, IdentityOf(keys, r), IdentityOf(keys, s))
  {
    hide Hex, SameIdentity;
    Prefixes();
    assert keys.Of(r) == TextOf(keys, IdentityOf(keys, r)) && keys.Of(s) == TextOf(keys, IdentityOf(keys, s)) by { hide Ascii; }
    hide Keys.Of, TextOf, IdentityOf;
    TextIffSame(keys, IdentityOf(keys, r), IdentityOf(keys, s));
  }

  lemma AppendAgree(p: Keys, a: Keys, refs: set<Reference>, bucket: seq<Reference>, r: Reference)
    requires AllKeyed(refs) && r in refs && forall x <- bucket :: x in refs
    ensures Append(p, bucket, r) == Append(a, bucket, r)
    ensures forall x <- Append(p, bucket, r) :: x in refs
  {
    hide Keys.Of;
    forall x | x in refs ensures p.Of(x) == a.Of(x) { SameKeys(p, a, x); }
  }

  lemma {:induction false} AddedAgree(p: Keys, a: Keys, refs: set<Reference>, b: Buckets, r: Reference, tokens: seq<Bytes>)
    requires AllKeyed(refs) && r in refs && Draws(b, refs)
    ensures Added(p, b, r, tokens) == Added(a, b, r, tokens)
    ensures Draws(Added(p, b, r, tokens), refs)
  {
    hide Keys.Of, Append, AllKeyed;
    if tokens != [] {
      AddedAgree(p, a, refs, b, r, tokens[..|tokens| - 1]);
      var before := Added(p, b, r, tokens[..|tokens| - 1]);
      AppendAgree(p, a, refs, Bucket(before, tokens[|tokens| - 1]), r);
    }
  }

  /** The same history of references with manifest keys leads both indices to the same buckets. */
  lemma {:induction false} ReplaysAgree(p: Keys, a: Keys, refs: set<Reference>, history: History)
    requires AllKeyed(refs) && Referenced(history) <= refs
    ensures Replay(p, history) == Replay(a, history) && Draws(Replay(p, history), refs)
  {
    if history != [] {
      var init, last := history[..|history| - 1], history[|history| - 1];
      assert forall i :: 0 <= i < |init| ==> init[i] == history[i];
      assert Referenced(init) <= Referenced(history);
      assert last.0 in Referenced(history);
      ReplaysAgree(p, a, refs, init);
      AddedAgree(p, a, refs, Replay(p, init), last.0, last.1);
    }
  }

  ghost predicate DistinctRefs(s: seq<Reference>) {
    forall i, j :: 0 <= i < j < |s| ==> s[i] != s[j]
  }

  ghost predicate DistinctKeys(keys: Keys, s: seq<Reference>) {
    forall i, j :: 0 <= i < j < |s| ==> keys.Of(s[i]) != keys.Of(s[j])
  }

  /** Every bucket holds a key at most once. */
  ghost predicate NoneTwice(keys: Keys, b: Buckets) {
    forall k <- b :: DistinctKeys(keys, b[k])
  }

  lemma AppendDistinct(keys: Keys, bucket: seq<Reference>, r: Reference)
    requires DistinctKeys(keys, bucket)
    ensures DistinctKeys(keys, Append(keys, bucket, r))
  {
    hide Keys.Of;
  }

  lemma {:induction false} AddedDistinct(keys: Keys, b: Buckets, r: Reference, tokens: seq<Bytes>)
    requires NoneTwice(keys, b)
    ensures NoneTwice(keys, Added(keys, b, r, tokens))
  {
    hide Keys.Of, Append;
    if tokens != [] {
      AddedDistinct(keys, b, r, tokens[..|tokens| - 1]);
      var before, token := Added(keys, b, r, tokens[..|tokens| - 1]), tokens[|tokens| - 1];
      AppendDistinct(keys, Bucket(before, token), r);
    }
  }

  /** No bucket ever holds a key twice. */
  lemma {:induction false} ReplayDistinct(keys: Keys, history: History)
    ensures NoneTwice(keys, Replay(keys, history))
  {
    hide Added;
    if history != [] {
      var last := history[|history| - 1];
      ReplayDistinct(keys, history[..|history| - 1]);
      AddedDistinct(keys, Replay(keys, history[..|history| - 1]), last.0, last.1);
    }
  }

  // ----- what a bucket holds -----

  lemma AppendTwice(keys: Keys, bucket: seq<Reference>, r: Reference)
    ensures Append(keys, Append(keys, bucket, r), r) == Append(keys, bucket, r)
  {
    hide Keys.Of;
    assert r in bucket + [r];
  }

  /** One `add_reference` appends to exactly the buckets of its tokens, however often they are named. */
  lemma {:induction false} AddedBucket(keys: Keys, b: Buckets, r: Reference, tokens: seq<Bytes>, token: Bytes)
    ensures Bucket(Added(keys, b, r, tokens), token) == if token in tokens then Append(keys, Bucket(b, token), r) else Bucket(b, token)
  {
    hide Append;
    if tokens != [] {
      var init, last := tokens[..|tokens| - 1], tokens[|tokens| - 1];
      assert tokens == init + [last];
      AddedBucket(keys, b, r, init, token);
      AppendTwice(keys, Bucket(b, token), r);
    }
  }

  /** Some reference with key `k` was added under the token. */
  ghost predicate KeyAdded(keys: Keys, history: History, token: Bytes, k: Bytes) {
    exists j :: 0 <= j < |history| && token in history[j].1 && keys.Of(history[j].0) == k
  }

  /** The reference of step `i` was added under the token, and none with its key before it. */
  ghost predicate FirstAt(keys: Keys, history: History, token: Bytes, i: nat)
    requires i < |history|
  {
    token in history[i].1 && forall j :: 0 <= j < i && token in history[j].1 ==> keys.Of(history[j].0) != keys.Of(history[i].0)
  }

  ghost predicate FirstAdded(keys: Keys, history: History, token: Bytes, r: Reference) {
    exists i :: 0 <= i < |history| && history[i].0 == r && FirstAt(keys, history, token, i)
  }

  lemma KeyAddedSnoc(keys: Keys, init: History, last: (Reference, seq<Bytes>), token: Bytes, k: Bytes)
    ensures KeyAdded(keys, init + [last], token, k) <==> KeyAdded(keys, init, token, k) || (token in last.1 && keys.Of(last.0) == k)
  {
    hide Keys.Of;
    var all := init + [last];
    assert all[|init|] == last;
    if KeyAdded(keys, init, token, k) {
      var j :| 0 <= j < |init| && token in init[j].1 && keys.Of(init[j].0) == k;
      assert all[j] == init[j];
    }
  }

  lemma FirstAddedSnoc(keys: Keys, init: History, last: (Reference, seq<Bytes>), token: Bytes, r: Reference)
    ensures FirstAdded(keys, init + [last], token, r) <==>
      FirstAdded(keys, init, token, r) || (token in last.1 && last.0 == r && !KeyAdded(keys, init, token, keys.Of(r)))
  {
    hide Keys.Of;
    var all := init + [last];
    assert all[|init|] == last && forall i :: 0 <= i < |init| ==> all[i] == init[i];
    forall i | 0 <= i < |init| ensures FirstAt(keys, all, token, i) <==> FirstAt(keys, init, token, i) {}
    assert FirstAt(keys, all, token, |init|) <==> token in last.1 && !KeyAdded(keys, init, token, keys.Of(last.0));
    hide FirstAt;
    if FirstAdded(keys, init, token, r) {
      var i :| 0 <= i < |init| && init[i].0 == r && FirstAt(keys, init, token, i);
      assert all[i].0 == r;
    }
  }

  /**
    After any history the bucket of a token holds, for every key, exactly the reference that was
    added first under the token with that key.
    */
  lemma {:induction false} BucketHolds(keys: Keys, history: History, token: Bytes)
    ensures forall r :: r in Bucket(Replay(keys, history), token) <==> FirstAdded(keys, history, token, r)
    ensures forall k :: HasKey(keys, Bucket(Replay(keys, history), token), k) <==> KeyAdded(keys, history, token, k)
  {
    if history != [] {
      var init, last := history[..|history| - 1], history[|history| - 1];
      assert history == init + [last];
      hide Keys.Of, Added, FirstAdded, KeyAdded, HasKey, Append, Bucket;
      BucketHolds(keys, init, token);
      AddedBucket(keys, Replay(keys, init), last.0, last.1, token);
      var before := Bucket(Replay(keys, init), token);
      forall r ensures r in Bucket(Replay(keys, history), token) <==> FirstAdded(keys, history, token, r) {
        FirstAddedSnoc(keys, init, last, token, r);
        AppendHolds(keys, before, last.0, keys.Of(last.0));
      }
      forall k ensures HasKey(keys, Bucket(Replay(keys, history), token), k) <==> KeyAdded(keys, history, token, k) {
        KeyAddedSnoc(keys, init, last, token, k);
        AppendHolds(keys, before, last.0, k);
      }
    }
  }

  predicate HasKey(keys: Keys, bucket: seq<Reference>, k: Bytes) {
    exists x <- bucket :: keys.Of(x) == k
  }

  lemma AppendHolds(keys: Keys, bucket: seq<Reference>, r: Reference, k: Bytes)
    ensures forall x :: x in Append(keys, bucket, r) <==> x in bucket || (x == r && !HasKey(keys, bucket, keys.Of(r)))
    ensures HasKey(keys, Append(keys, bucket, r), k) <==> HasKey(keys, bucket, k) || keys.Of(r) == k
  {
    hide Keys.Of;
  }

  /** And it holds them in the order in which they were added: a longer history only appends. */
  lemma {:induction false} BucketGrows(keys: Keys, history: History, n: nat, token: Bytes)
    requires n <= |history|
    ensures Bucket(Replay(keys, history[..n]), token) <= Bucket(Replay(keys, history), token)
  {
    hide Keys.Of, Added;
    if n < |history| {
      var init, last := history[..|history| - 1], history[|history| - 1];
      assert init[..n] == history[..n];
      BucketGrows(keys, init, n, token);
      AddedBucket(keys, Replay(keys, init), last.0, last.1, token);
    } else {
      assert history[..n] == history;
    }
  }

  // ----- hits -----

  /** The buckets of the tokens, in the order asked for. */
  function BucketsOf(b: Buckets, tokens: seq<Bytes>): (lists: seq<seq<Reference>>)
    ensures |lists| == |tokens| && forall i :: 0 <= i < |lists| ==> lists[i] == Bucket(b, tokens[i])
  {
    seq(|tokens|, i requires 0 <= i < |tokens| => Bucket(b, tokens[i]))
  }

  /** All references hit, one after the other. */
  function Flat(lists: seq<seq<Reference>>): (s: seq<Reference>) {
    if lists == [] then [] else Flat(lists[..|lists| - 1]) + lists[|lists| - 1]
  }

  datatype Query = Query(shortId: Option<Bytes>, namespaceId: Option<Bytes>) {

    predicate Passes(r: Reference) {
      && (shortId.Some? ==> r.shortId == shortId.value)
      && (namespaceId.Some? ==> r.namespaceId == namespaceId)
    }
  }

  /** First-seen references by key, and hit counts by key. */
  datatype Tally = Tally(firsts: seq<Reference>, hits: map<Bytes, nat>) {

    function Count(k: Bytes): nat {
      if k in hits then hits[k] else 0
    }

    /** `by_key.setdefault(key, ref)` and `hit_counts[key] += 1` */
    function Hit(keys: Keys, r: Reference): (t: Tally) {
      var k := keys.Of(r);
      Tally(if k in hits then firsts else firsts + [r], hits[k := Count(k) + 1])
    }
  }

  /** How many references of `s` pass and have key `k`. */
  function KeyCount(keys: Keys, q: Query, s: seq<Reference>, k: Bytes): (n: nat) {
    if s == [] then 0
    else
      var last := s[|s| - 1];
      KeyCount(keys, q, s[..|s| - 1], k) + (if q.Passes(last) && keys.Of(last) == k then 1 else 0)
  }

  /** The first of them. */
  function FirstWith(keys: Keys, q: Query, s: seq<Reference>, k: Bytes): (f: Option<Reference>)
    ensures f.Some? ==> f.value in s && q.Passes(f.value) && keys.Of(f.value) == k
    ensures f.Some? <==> KeyCount(keys, q, s, k) > 0
  {
    if s == [] then None
    else
      var before, last := FirstWith(keys, q, s[..|s| - 1], k), s[|s| - 1];
      if before.Some? then before else if q.Passes(last) && keys.Of(last) == k then Some(last) else None
  }

  /** The positions at which `s` holds a passing reference with key `k`. */
  function PositionsWith(keys: Keys, q: Query, s: seq<Reference>, k: Bytes): (p: set<nat>) {
    set i: nat | i < |s| && q.Passes(s[i]) && keys.Of(s[i]) == k
  }

  /** One more reference adds its position, the largest, if it passes and has the key. */
  lemma PositionsSnoc(keys: Keys, q: Query, s: seq<Reference>, k: Bytes)
    requires s != []
    ensures var n := |s| - 1;
      && var before := PositionsWith(keys, q, s[..n], k);
      && n !in before && PositionsWith(keys, q, s, k) == before + (if q.Passes(s[n]) && keys.Of(s[n]) == k then {n} else {})
  {
    hide Keys.Of, Query.Passes;
  }

  /** The count is the number of these positions. */
  lemma {:induction false} CountsPositions(keys: Keys, q: Query, s: seq<Reference>, k: Bytes)
    ensures KeyCount(keys, q, s, k) == |PositionsWith(keys, q, s, k)|
  {
    hide Keys.Of, Query.Passes;
    if s != [] {
      PositionsSnoc(keys, q, s, k);
      hide PositionsWith;
      CountsPositions(keys, q, s[..|s| - 1], k);
    }
  }

  /** The first reference is the one at the smallest of them. */
  lemma {:induction false} FirstStandsFirst(keys: Keys, q: Query, s: seq<Reference>, k: Bytes)
    ensures FirstWith(keys, q, s, k).None? <==> PositionsWith(keys, q, s, k) == {}
    ensures FirstWith(keys, q, s, k).Some? ==> exists i <- PositionsWith(keys, q, s, k) ::
      FirstWith(keys, q, s, k).value == s[i] && forall j <- PositionsWith(keys, q, s, k) :: i <= j
  {
    hide Keys.Of, Query.Passes;
    if s != [] {
      var n := |s| - 1;
      PositionsSnoc(keys, q, s, k);
      FirstStandsFirst(keys, q, s[..n], k);
      var before := PositionsWith(keys, q, s[..n], k);
      if i :| i in before && s[..n][i] == FirstWith(keys, q, s[..n], k).value && forall j <- before :: i <= j {
        assert s[i] == s[..n][i] && i in PositionsWith(keys, q, s, k);
      }
    }
  }

  /** What a tally that counts what passes `q` sees of the references hit. */
  datatype View = View(keys: Keys, q: Query, hits: seq<Reference>) {

    function Count(k: Bytes): nat {
      KeyCount(keys, q, hits, k)
    }

    /** How often the key of `r` is hit. */
    function HitsOf(r: Reference): nat {
      Count(keys.Of(r))
    }

    /** `r` is the first reference seen with its key. */
    predicate Leads(r: Reference) {
      FirstWith(keys, q, hits, keys.Of(r)) == Some(r)
    }
  }

  /** The tally has counted exactly what the view sees. */
  ghost predicate Tallies(t: Tally, v: View) {
    && (forall k :: t.Count(k) == v.Count(k)) && (forall k :: k in t.hits <==> v.Count(k) > 0)
    && (forall r :: r in t.firsts <==> v.Leads(r)) && DistinctKeys(v.keys, t.firsts)
  }

  lemma CountSnoc(keys: Keys, q: Query, s: seq<Reference>, r: Reference, k: Bytes)
    ensures KeyCount(keys, q, s + [r], k) == KeyCount(keys, q, s, k) + (if q.Passes(r) && keys.Of(r) == k then 1 else 0)
    ensures FirstWith(keys, q, s + [r], k) ==
      if FirstWith(keys, q, s, k).Some? then FirstWith(keys, q, s, k)
      else if q.Passes(r) && keys.Of(r) == k then Some(r) else None
  {
    assert (s + [r])[..|s|] == s;
  }

  /** How one more hit changes a view. */
  lemma ViewStep(v: View, r: Reference)
    ensures var w := v.(hits := v.hits + [r]);
      && (forall k :: w.Count(k) == v.Count(k) + (if v.q.Passes(r) && v.keys.Of(r) == k then 1 else 0))
      && (forall x :: w.Leads(x) <==> v.Leads(x) || (v.q.Passes(r) && x == r && v.Count(v.keys.Of(r)) == 0))
  {
    hide Keys.Of, Query.Passes, KeyCount, FirstWith;
    forall k ensures v.(hits := v.hits + [r]).Count(k) == v.Count(k) + (if v.q.Passes(r) && v.keys.Of(r) == k then 1 else 0) {
      CountSnoc(v.keys, v.q, v.hits, r, k);
    }
    forall x ensures v.(hits := v.hits + [r]).Leads(x) <==> v.Leads(x) || (v.q.Passes(r) && x == r && v.Count(v.keys.Of(r)) == 0) {
      LeadsSnoc(v, r, x);
    }
  }

  lemma TallyStep(t: Tally, v: View, r: Reference)
    requires Tallies(t, v)
    ensures Tallies(if v.q.Passes(r) then t.Hit(v.keys, r) else t, v.(hits := v.hits + [r]))
  {
    hide Keys.Of, Query.Passes, View.Count, View.Leads;
    ViewStep(v, r);
    if v.q.Passes(r) && v.keys.Of(r) !in t.hits {
      forall x | x in t.firsts ensures v.keys.Of(x) != v.keys.Of(r) { LeaderCounts(v, x); }
      NewFirst(v.keys, t.firsts, r);
    }
  }

  lemma NewFirst(keys: Keys, s: seq<Reference>, r: Reference)
    requires DistinctKeys(keys, s) && forall x <- s :: keys.Of(x) != keys.Of(r)
    ensures DistinctKeys(keys, s + [r])
  {
    hide Keys.Of;
  }

  lemma LeadsSnoc(v: View, r: Reference, x: Reference)
    ensures v.(hits := v.hits + [r]).Leads(x) <==> v.Leads(x) || (v.q.Passes(r) && x == r && v.Count(v.keys.Of(r)) == 0)
  {
    CountSnoc(v.keys, v.q, v.hits, r, v.keys.Of(x));
    hide Keys.Of, Query.Passes;
  }

  lemma LeaderCounts(v: View, x: Reference)
    requires v.Leads(x)
    ensures v.HitsOf(x) > 0 && x in v.hits && v.q.Passes(x)
  {
    hide Keys.Of, Query.Passes;
  }

  /** The tally after one more bucket: references that do not pass are skipped. */
  function Tallied(keys: Keys, q: Query, t: Tally, bucket: seq<Reference>): (t': Tally) {
    if bucket == [] then t
    else
      var before, last := Tallied(keys, q, t, bucket[..|bucket| - 1]), bucket[|bucket| - 1];
      if q.Passes(last) then before.Hit(keys, last) else before
  }

  /** The tally of all lists. */
  function TallyAll(keys: Keys, q: Query, lists: seq<seq<Reference>>): (t: Tally) {
    if lists == [] then Tally([], map[])
    else Tallied(keys, q, TallyAll(keys, q, lists[..|lists| - 1]), lists[|lists| - 1])
  }

  lemma {:induction false} TalliedExact(t: Tally, v: View, bucket: seq<Reference>)
    requires Tallies(t, v)
    ensures Tallies(Tallied(v.keys, v.q, t, bucket), v.(hits := v.hits + bucket))
  {
    hide Tallies, Tally.Hit, Query.Passes;
    if bucket == [] {
      assert v.hits + bucket == v.hits;
    } else {
      var init, last := bucket[..|bucket| - 1], bucket[|bucket| - 1];
      TalliedExact(t, v, init);
      TallyStep(Tallied(v.keys, v.q, t, init), v.(hits := v.hits + init), last);
      assert v.hits + bucket == v.hits + init + [last];
    }
  }

  /** Counting by key: every key with its hits, and the first reference seen with it. */
  lemma {:induction false} TallyAllExact(keys: Keys, q: Query, lists: seq<seq<Reference>>)
    ensures Tallies(TallyAll(keys, q, lists), View(keys, q, Flat(lists)))
  {
    hide Tallied, Tallies;
    if lists == [] {
      NothingTallied(keys, q);
    } else {
      var init := lists[..|lists| - 1];
      TallyAllExact(keys, q, init);
      TalliedExact(TallyAll(keys, q, init), View(keys, q, Flat(init)), lists[|lists| - 1]);
    }
  }

  lemma NothingTallied(keys: Keys, q: Query)
    ensures Tallies(Tally([], map[]), View(keys, q, []))
  {
  }

  // ----- the order in which a bucket is read does not matter -----

  lemma {:induction false} CountConcat(keys: Keys, q: Query, s: seq<Reference>, t: seq<Reference>, k: Bytes)
    ensures KeyCount(keys, q, s + t, k) == KeyCount(keys, q, s, k) + KeyCount(keys, q, t, k)
    ensures FirstWith(keys, q, s + t, k) ==
      if FirstWith(keys, q, s, k).Some? then FirstWith(keys, q, s, k) else FirstWith(keys, q, t, k)
  {
    hide Keys.Of, Query.Passes;
    if t == [] {
      assert s + t == s;
    } else {
      assert (s + t)[..|s + t| - 1] == s + t[..|t| - 1];
      CountConcat(keys, q, s, t[..|t| - 1], k);
    }
  }

  /** In a list of distinct keys a key is counted once, for its reference, if that passes. */
  lemma {:induction false} CountDistinct(keys: Keys, q: Query, s: seq<Reference>, r: Reference)
    requires DistinctKeys(keys, s) && r in s
    ensures KeyCount(keys, q, s, keys.Of(r)) == if q.Passes(r) then 1 else 0
    ensures FirstWith(keys, q, s, keys.Of(r)) == if q.Passes(r) then Some(r) else None
  {
    DistinctInit(keys, s);
    hide Keys.Of, Query.Passes, DistinctKeys;
    var init, last := s[..|s| - 1], s[|s| - 1];
    assert s == init + [last];
    if r in init {
      CountDistinct(keys, q, init, r);
    } else {
      CountNone(keys, q, init, keys.Of(r));
    }
  }

  lemma DistinctInit(keys: Keys, s: seq<Reference>)
    requires DistinctKeys(keys, s) && s != []
    ensures DistinctKeys(keys, s[..|s| - 1]) && forall x <- s[..|s| - 1] :: keys.Of(x) != keys.Of(s[|s| - 1])
  {
    hide Keys.Of;
    forall x | x in s[..|s| - 1] ensures keys.Of(x) != keys.Of(s[|s| - 1]) {
      var i :| 0 <= i < |s| - 1 && s[i] == x;
    }
  }

  lemma {:induction false} CountNone(keys: Keys, q: Query, s: seq<Reference>, k: Bytes)
    requires forall x <- s :: keys.Of(x) != k
    ensures KeyCount(keys, q, s, k) == 0 && FirstWith(keys, q, s, k) == None
  {
    hide Keys.Of, Query.Passes;
    if s != [] {
      assert s == s[..|s| - 1] + [s[|s| - 1]];
      CountNone(keys, q, s[..|s| - 1], k);
    }
  }

  /** Distinct lists are those without repetition in the multiset. */
  lemma {:induction false} DistinctIff(s: seq<Reference>)
    ensures DistinctRefs(s) <==> forall x :: multiset(s)[x] <= 1
  {
    if s != [] {
      var init, last := s[..|s| - 1], s[|s| - 1];
      assert s == init + [last];
      DistinctIff(init);
      if DistinctRefs(s) {
        assert last !in init;
        assert forall x :: multiset(s)[x] <= 1;
      } else if DistinctRefs(init) {
        var i :| 0 <= i < |init| && init[i] == last;
        assert multiset(init)[last] >= 1;
        assert multiset(s)[last] >= 2;
      } else {
        var x :| multiset(init)[x] > 1;
        assert multiset(s)[x] > 1;
      }
    }
  }

  /** Keys are distinct when references are, and different references have different keys. */
  lemma DistinctKeysIff(keys: Keys, s: seq<Reference>)
    ensures DistinctKeys(keys, s) <==> DistinctRefs(s) && forall x, y :: x in s && y in s && keys.Of(x) == keys.Of(y) ==> x == y
  {
    hide Keys.Of;
    if DistinctKeys(keys, s) {
      forall x, y | x in s && y in s && keys.Of(x) == keys.Of(y) ensures x == y {
        var i :| 0 <= i < |s| && s[i] == x;
        var j :| 0 <= j < |s| && s[j] == y;
      }
    } else {
      var i, j :| 0 <= i < j < |s| && keys.Of(s[i]) == keys.Of(s[j]);
      assert s[i] in s && s[j] in s;
    }
  }

  lemma SameElements(a: seq<Reference>, b: seq<Reference>)
    requires multiset(a) == multiset(b)
    ensures forall x :: x in a <==> x in b
  {
    forall x ensures x in a <==> x in b {
      assert x in a <==> x in multiset(a);
      assert x in b <==> x in multiset(b);
    }
  }

  lemma DistinctPermutes(keys: Keys, s: seq<Reference>, t: seq<Reference>)
    requires DistinctKeys(keys, s) && multiset(s) == multiset(t)
    ensures DistinctKeys(keys, t)
  {
    hide Keys.Of, DistinctKeys, DistinctRefs;
    DistinctKeysIff(keys, s);
    DistinctKeysIff(keys, t);
    DistinctIff(s);
    DistinctIff(t);
    SameElements(s, t);
  }

  lemma CountPermutes(keys: Keys, q: Query, s: seq<Reference>, t: seq<Reference>, k: Bytes)
    requires DistinctKeys(keys, s) && multiset(s) == multiset(t)
    ensures KeyCount(keys, q, s, k) == KeyCount(keys, q, t, k) && FirstWith(keys, q, s, k) == FirstWith(keys, q, t, k)
  {
    hide Keys.Of, Query.Passes, DistinctKeys, KeyCount, FirstWith;
    SameElements(s, t);
    DistinctPermutes(keys, s, t);
    if r :| r in s && keys.Of(r) == k {
      CountDistinct(keys, q, s, r);
      CountDistinct(keys, q, t, r);
    } else {
      CountNone(keys, q, s, k);
      CountNone(keys, q, t, k);
    }
  }

  // ----- ranking -----

  /** References decorated with what a ranking sorts by: more hits first, then the tie-break. */
  function Decorated(v: View, refs: seq<Reference>): (s: seq<Ranked<Reference>>)
    ensures |s| == |refs| && forall i :: 0 <= i < |s| ==> s[i] == Ranked(-(v.HitsOf(refs[i]) as int), v.keys.Order(refs[i]), refs[i])
  {
    seq(|refs|, i requires 0 <= i < |refs| => Ranked(-(v.HitsOf(refs[i]) as int), v.keys.Order(refs[i]), refs[i]))
  }

  /** More hits, or as many and first in the tie-break. */
  predicate Precedes(v: View, r: Reference, s: Reference) {
    v.HitsOf(r) > v.HitsOf(s) || (v.HitsOf(r) == v.HitsOf(s) && PartsLess(v.keys.Order(r), v.keys.Order(s)))
  }

  predicate InOrder(v: View, refs: seq<Reference>) {
    forall i, j :: 0 <= i < j < |refs| ==> Precedes(v, refs[i], refs[j])
  }

  lemma OrderIsStrict(v: View, refs: seq<Reference>)
    ensures InOrder(v, refs) <==> Strict(Decorated(v, refs))
  {
    hide Keys.Order, PartsLess, View.HitsOf;
    var d := Decorated(v, refs);
    forall i, j | 0 <= i < j < |d| ensures RankLess(d[i], d[j]) <==> Precedes(v, refs[i], refs[j]) {}
  }

  /** The same from a tally. */
  function Ranks(keys: Keys, t: Tally, refs: seq<Reference>): (s: seq<Ranked<Reference>>)
    ensures |s| == |refs|
    ensures forall i :: 0 <= i < |s| ==> s[i] == Ranked(-(t.Count(keys.Of(refs[i])) as int), keys.Order(refs[i]), refs[i])
  {
    seq(|refs|, i requires 0 <= i < |refs| => Ranked(-(t.Count(keys.Of(refs[i])) as int), keys.Order(refs[i]), refs[i]))
  }

  /** `sorted(refs, key=lambda r: (-hits[key(r)], order(r)))` */
  function SortedByHits(keys: Keys, t: Tally, refs: seq<Reference>): (s: seq<Reference>) {
    Unkeyed(SortRanked(Ranks(keys, t, refs)))
  }

  /**
    `all` lists exactly the references that are first with their key, pass the query and have at
    least `min` hits of their key, each once, by falling hits and then by the index's tie-break.
    */
  ghost predicate IsRanking(v: View, all: seq<Reference>, q: Query, min: int) {
    && (forall r :: r in all <==> v.Leads(r) && q.Passes(r) && v.HitsOf(r) >= min)
    && InOrder(v, all)
  }

  /** The same where references with different keys may tie: each once, and none before one that precedes it. */
  ghost predicate IsLooseRanking(v: View, all: seq<Reference>, q: Query, min: int) {
    && (forall r :: r in all <==> v.Leads(r) && q.Passes(r) && v.HitsOf(r) >= min)
    && DistinctRefs(all) && forall i, j :: 0 <= i < j < |all| ==> !Precedes(v, all[j], all[i])
  }

  /** The tie-break of the index tells different keys apart. */
  ghost predicate OrderTells(keys: Keys, s: seq<Reference>) {
    forall x, y :: x in s && y in s && keys.Order(x) == keys.Order(y) ==> keys.Of(x) == keys.Of(y)
  }

  lemma PlainOrderTells(keys: Keys, s: seq<Reference>)
    requires keys.Plain?
    ensures OrderTells(keys, s)
  {
    hide Keys.Of;
    forall x, y | x in s && y in s && keys.Order(x) == keys.Order(y) ensures keys.Of(x) == keys.Of(y) {
      assert keys.Order(x)[0] == keys.Order(y)[0];
    }
  }

  lemma TupleTells(keys: Keys, s: seq<Reference>)
    requires keys.Authenticated? && forall r <- s :: r.manifestKey.Some?
    ensures OrderTells(keys, s)
  {
    forall x, y | x in s && y in s && keys.Order(x) == keys.Order(y) ensures keys.Of(x) == keys.Of(y) {
      assert keys.Order(x)[1] == keys.Order(y)[1];
      KeyInjective(keys, x, y);
    }
  }

  /** Of two references with different keys, neither after the other in order means before it. */
  lemma RankDecides(keys: Keys, s: seq<Reference>, x: Ranked<Reference>, y: Ranked<Reference>)
    requires OrderTells(keys, s) && x.value in s && y.value in s && keys.Of(x.value) != keys.Of(y.value)
    requires x.parts == keys.Order(x.value) && y.parts == keys.Order(y.value) && !RankLess(y, x)
    ensures RankLess(x, y)
  {
    hide Keys.Order, Keys.Of;
    PartsTotal(x.parts, y.parts);
  }

  lemma TiesBroken(keys: Keys, s: seq<Reference>, u: seq<Ranked<Reference>>)
    requires OrderTells(keys, s) && Ordered(u) && DistinctKeys(keys, Unkeyed(u))
    requires forall i :: 0 <= i < |u| ==> u[i].value in s && u[i].parts == keys.Order(u[i].value)
    ensures Strict(u)
  {
    hide Keys.Order, Keys.Of, OrderTells, RankLess;
    forall i, j | 0 <= i < j < |u| ensures RankLess(u[i], u[j]) {
      assert keys.Of(Unkeyed(u)[i]) != keys.Of(Unkeyed(u)[j]);
      RankDecides(keys, s, u[i], u[j]);
    }
  }

  lemma SortedElements<T>(d: seq<Ranked<T>>)
    ensures forall i :: 0 <= i < |d| ==> SortRanked(d)[i] in d
  {
    hide SortRanked;
    SortRankedPermutes(d);
    forall i | 0 <= i < |d| ensures SortRanked(d)[i] in d {
      assert SortRanked(d)[i] in multiset(SortRanked(d));
      assert SortRanked(d)[i] in multiset(d);
    }
  }

  /** What the elements of a sorted list of references are sorted by. */
  lemma SortedRanks(t: Tally, v: View, s: seq<Reference>)
    requires forall k :: t.Count(k) == v.Count(k)
    ensures multiset(SortedByHits(v.keys, t, s)) == multiset(s)
    ensures SortRanked(Ranks(v.keys, t, s)) == Decorated(v, SortedByHits(v.keys, t, s))
  {
    hide Keys.Of, Keys.Order, SortRanked, Tally.Count, View.Count;
    var d := Ranks(v.keys, t, s);
    var u := SortRanked(d);
    assert Unkeyed(d) == s;
    SortValues(d);
    SortedElements(d);
    forall i | 0 <= i < |u| ensures u[i] == Decorated(v, Unkeyed(u))[i] {
      var j :| 0 <= j < |d| && d[j] == u[i];
    }
  }

  /** Sorting leaves none before one that precedes it. */
  lemma SortedLoose(t: Tally, v: View, s: seq<Reference>)
    requires forall k :: t.Count(k) == v.Count(k)
    ensures forall i, j :: 0 <= i < j < |SortedByHits(v.keys, t, s)| ==>
      !Precedes(v, SortedByHits(v.keys, t, s)[j], SortedByHits(v.keys, t, s)[i])
  {
    hide Keys.Of, Keys.Order, SortRanked, Tally.Count, View.Count, PartsLess, SortedByHits;
    var all := SortedByHits(v.keys, t, s);
    SortedRanks(t, v, s);
    SortOrdered(Ranks(v.keys, t, s));
    var u := Decorated(v, all);
    forall i, j | 0 <= i < j < |all| ensures !Precedes(v, all[j], all[i]) {
      assert !RankLess(u[j], u[i]);
    }
  }

  /** Sorting references of distinct keys leaves no ties. */
  lemma SortedStrict(t: Tally, v: View, s: seq<Reference>)
    requires OrderTells(v.keys, s) && DistinctKeys(v.keys, s) && forall k :: t.Count(k) == v.Count(k)
    ensures multiset(SortedByHits(v.keys, t, s)) == multiset(s)
    ensures InOrder(v, SortedByHits(v.keys, t, s))
  {
    hide Keys.Of, Keys.Order, OrderTells, SortRanked, RankLess, PartsLess, Tally.Count, View.Count, DistinctKeys, Ordered, Strict,
      InOrder, SortedByHits;
    var all := SortedByHits(v.keys, t, s);
    var u := Decorated(v, all);
    SortedRanks(t, v, s);
    SortOrdered(Ranks(v.keys, t, s));
    DistinctPermutes(v.keys, s, all);
    SameElements(all, s);
    assert Unkeyed(u) == all;
    TiesBroken(v.keys, s, u);
    OrderIsStrict(v, all);
  }

  /** The references of a list that pass the query and are hit often enough, in order. */
  function Kept(keys: Keys, t: Tally, q: Query, min: int, s: seq<Reference>): (r: seq<Reference>) {
    if s == [] then []
    else
      var last := s[|s| - 1];
      Kept(keys, t, q, min, s[..|s| - 1]) + (if q.Passes(last) && t.Count(keys.Of(last)) >= min then [last] else [])
  }

  lemma {:induction false} KeptMembers(keys: Keys, t: Tally, q: Query, min: int, s: seq<Reference>)
    ensures forall x :: x in Kept(keys, t, q, min, s) <==> x in s && q.Passes(x) && t.Count(keys.Of(x)) >= min
  {
    hide Keys.Of, Query.Passes, Tally.Count;
    if s != [] {
      assert s == s[..|s| - 1] + [s[|s| - 1]];
      KeptMembers(keys, t, q, min, s[..|s| - 1]);
    }
  }

  lemma {:induction false} KeptDistinct(keys: Keys, t: Tally, q: Query, min: int, s: seq<Reference>)
    requires DistinctKeys(keys, s)
    ensures DistinctKeys(keys, Kept(keys, t, q, min, s))
  {
    hide Keys.Of, Query.Passes, Tally.Count;
    if s != [] {
      var init, last := s[..|s| - 1], s[|s| - 1];
      KeptDistinct(keys, t, q, min, init);
      KeptMembers(keys, t, q, min, init);
      var kept := Kept(keys, t, q, min, init);
      DistinctInit(keys, s);
      NewFirst(keys, kept, last);
      assert kept + [] == kept;
    }
  }

  lemma {:induction false} KeptStrict(v: View, t: Tally, q: Query, min: int, s: seq<Reference>)
    requires InOrder(v, s)
    ensures InOrder(v, Kept(v.keys, t, q, min, s))
  {
    hide Keys.Of, Precedes, Query.Passes, Tally.Count;
    if s != [] {
      var init, last := s[..|s| - 1], s[|s| - 1];
      KeptStrict(v, t, q, min, init);
      var kept := Kept(v.keys, t, q, min, init);
      KeptMembers(v.keys, t, q, min, init);
      forall i | 0 <= i < |kept| ensures Precedes(v, kept[i], last) {
        assert kept[i] in init;
        var j :| 0 <= j < |init| && init[j] == kept[i];
        assert s[j] == kept[i];
      }
    }
  }

  /** A list is the only ranking of what it ranks. */
  lemma RankingUnique(v: View, q: Query, min: int, all: seq<Reference>, other: seq<Reference>)
    requires IsRanking(v, all, q, min) && IsRanking(v, other, q, min)
    ensures all == other
  {
    hide Keys.Order, PartsLess, Precedes, RankLess, View.HitsOf, View.Leads, Query.Passes;
    var d, e := Decorated(v, all), Decorated(v, other);
    OrderIsStrict(v, all);
    OrderIsStrict(v, other);
    DecoratedMembers(v, all, other);
    DecoratedMembers(v, other, all);
    StrictUnique(d, e);
    forall i | 0 <= i < |all| ensures all[i] == other[i] { assert d[i] == e[i]; }
  }

  lemma DecoratedMembers(v: View, all: seq<Reference>, other: seq<Reference>)
    requires forall r <- all :: r in other
    ensures forall x <- Decorated(v, all) :: x in Decorated(v, other)
  {
    hide Keys.Order, View.HitsOf;
    forall x | x in Decorated(v, all) ensures x in Decorated(v, other) {
      assert x.value in all;
      var j :| 0 <= j < |other| && other[j] == x.value;
      assert Decorated(v, other)[j] == x;
    }
  }

  // ----- lookups -----

  datatype LookupResult = LookupResult(shortId: Bytes, references: seq<Reference>, complete: bool, totalAvailable: nat)

  /** `refs[:max]` */
  function FirstOf(refs: seq<Reference>, max: int): (r: seq<Reference>) {
    var end := if max >= 0 then max else |refs| + max;
    if end <= 0 then [] else if end < |refs| then refs[..end] else refs
  }

  /** The answer built from a full ranking: capped, and marked incomplete when something was cut. */
  function Report(all: seq<Reference>, max: Option<int>, shortId: Option<Bytes>): (r: LookupResult) {
    var cut := max.Some? && |all| > max.value;
    var refs := if cut then FirstOf(all, max.value) else all;
    var sid := if shortId.Some? then shortId.value else if refs != [] then refs[0].shortId else seq(8, _ => 0);
    LookupResult(sid, refs, !cut, |all|)
  }

  /**
    `r` is the answer to a query for the short id `asked`, made from a full ranking: all of it, or
    its first `max` elements when it is longer; for a negative `max` what a slice up to it leaves.
    */
  ghost predicate Capped(all: seq<Reference>, max: Option<int>, asked: Option<Bytes>, r: LookupResult) {
    && r.references <= all && r.totalAvailable == |all|
    && (r.complete <==> max.None? || |all| <= max.value)
    && (r.complete ==> |r.references| == |all|)
    && (!r.complete && max.value >= 0 ==> |r.references| == max.value)
    && (!r.complete && -|all| <= max.value < 0 ==> |r.references| == |all| + max.value)
    && (!r.complete && max.value < -|all| ==> r.references == [])
    && (asked.Some? ==> r.shortId == asked.value)
    && (asked.None? && r.references != [] ==> r.shortId == r.references[0].shortId)
    && (asked.None? && r.references == [] ==> |r.shortId| == 8 && forall i :: 0 <= i < 8 ==> r.shortId[i] == 0)
  }

  /** Every report is such an answer, and there is only one. */
  lemma ReportCaps(all: seq<Reference>, max: Option<int>, asked: Option<Bytes>, r: LookupResult)
    ensures Capped(all, max, asked, r) <==> r == Report(all, max, asked)
  {
    if Capped(all, max, asked, r) {
      var s := Report(all, max, asked);
      assert r.references == all[..|r.references|] && s.references == all[..|s.references|];
      assert r.shortId == s.shortId;
    }
  }

  const EVERYTHING: Query := Query(None, None)

  /** What the plain index answers: it ranks all hits and then filters. */
  function PlainAnswer(keys: Keys, b: Buckets, tokens: seq<Bytes>, q: Query, min: int, max: Option<int>): (r: LookupResult) {
    var t := TallyAll(keys, EVERYTHING, BucketsOf(b, tokens));
    Report(Kept(keys, t, q, min, SortedByHits(keys, t, t.firsts)), max, q.shortId)
  }

  /** The buckets as candidate sets show them. */
  function SortedBuckets(h: Bytes -> Digest, b: Buckets, tokens: seq<Bytes>): (lists: seq<seq<Reference>>)
    ensures |lists| == |tokens| && forall i :: 0 <= i < |lists| ==> lists[i] == SortedReferences(h, Bucket(b, tokens[i]))
  {
    seq(|tokens|, i requires 0 <= i < |tokens| => SortedReferences(h, Bucket(b, tokens[i])))
  }

  /** What the authenticated index answers: it counts what passes, drops rare hits and then ranks. */
  function AuthenticatedAnswer(h: Bytes -> Digest, b: Buckets, tokens: seq<Bytes>, q: Query, min: int, max: Option<int>): (r: LookupResult) {
    var keys := Authenticated(h);
    var t := TallyAll(keys, q, SortedBuckets(h, b, tokens));
    Report(SortedByHits(keys, t, Kept(keys, t, EVERYTHING, min, t.firsts)), max, q.shortId)
  }

  /** Sorting the buckets changes neither the hits of a key nor its first reference. */
  lemma {:induction false} SortedHits(keys: Keys, q: Query, b: Buckets, tokens: seq<Bytes>, k: Bytes)
    requires keys.Authenticated? && NoneTwice(keys, b)
    ensures KeyCount(keys, q, Flat(SortedBuckets(keys.h, b, tokens)), k) == KeyCount(keys, q, Flat(BucketsOf(b, tokens)), k)
    ensures FirstWith(keys, q, Flat(SortedBuckets(keys.h, b, tokens)), k) == FirstWith(keys, q, Flat(BucketsOf(b, tokens)), k)
  {
    hide SortedReferences, KeyCount, FirstWith;
    if tokens != [] {
      var n := |tokens| - 1;
      var bucket, sorted := Bucket(b, tokens[n]), SortedReferences(keys.h, Bucket(b, tokens[n]));
      SortedHits(keys, q, b, tokens[..n], k);
      assert Flat(SortedBuckets(keys.h, b, tokens)) == Flat(SortedBuckets(keys.h, b, tokens[..n])) + sorted by {
        assert SortedBuckets(keys.h, b, tokens)[..n] == SortedBuckets(keys.h, b, tokens[..n]);
      }
      assert Flat(BucketsOf(b, tokens)) == Flat(BucketsOf(b, tokens[..n])) + bucket by {
        assert BucketsOf(b, tokens)[..n] == BucketsOf(b, tokens[..n]);
      }
      hide Flat, BucketsOf, SortedBuckets;
      assert DistinctKeys(keys, bucket);
      hide DistinctKeys;
      SortedReferencesPermute(keys.h, bucket);
      CountPermutes(keys, q, bucket, sorted, k);
      CountConcat(keys, q, Flat(BucketsOf(b, tokens[..n])), bucket, k);
      CountConcat(keys, q, Flat(SortedBuckets(keys.h, b, tokens[..n])), sorted, k);
    }
  }

  /** Count a bucket's passing references. */
  method TallyBucket(keys: Keys, t0: Tally, bucket: seq<Reference>, q: Query) returns (t: Tally)
    ensures t == Tallied(keys, q, t0, bucket)
  {
    hide Tally.Hit, Query.Passes;
    t := t0;
    for i := 0 to |bucket|
      invariant t == Tallied(keys, q, t0, bucket[..i])
    {
      assert bucket[..i + 1][..i] == bucket[..i];
      if q.Passes(bucket[i]) {
        t := t.Hit(keys, bucket[i]);
      }
    }
    assert bucket[..|bucket|] == bucket;
  }

  /** The plain index: a multimap without proofs. */
  class PlainIndex {
    const keys: PlainKeys
    var buckets: Buckets

    constructor (docHash: Bytes -> Bytes)
      ensures keys == Plain(docHash) && buckets == map[]
    {
      keys, buckets := Plain(docHash), map[];
    }

    method AddReference(r: Reference, tokens: seq<Bytes>)
      modifies this
      ensures buckets == Added(keys, old(buckets), r, tokens)
    {
      for i := 0 to |tokens|
        invariant buckets == Added(keys, old(buckets), r, tokens[..i])
      {
        assert tokens[..i + 1][..i] == tokens[..i];
        var bucket := Bucket(buckets, tokens[i]);
        buckets := buckets[tokens[i] := Append(keys, bucket, r)];
      }
      assert tokens[..|tokens|] == tokens;
    }

    /** Hits of all tokens, ranked. */
    method Lookup(tokens: seq<Bytes>) returns (ordered: seq<Reference>, t: Tally)
      ensures t == TallyAll(keys, EVERYTHING, BucketsOf(buckets, tokens))
      ensures ordered == SortedByHits(keys, t, t.firsts)
    {
      hide Tallied, SortedByHits;
      t := Tally([], map[]);
      for i := 0 to |tokens|
        invariant t == TallyAll(keys, EVERYTHING, BucketsOf(buckets, tokens[..i]))
      {
        assert BucketsOf(buckets, tokens[..i + 1])[..i] == BucketsOf(buckets, tokens[..i]);
        t := TallyBucket(keys, t, Bucket(buckets, tokens[i]), EVERYTHING);
      }
      assert tokens[..|tokens|] == tokens;
      ordered := SortedByHits(keys, t, t.firsts);
    }

    /**
      The candidates for a set of route tokens: the capped ranking of the hits.  A threshold below
      1 raises.
      */
    method LookupTokens(tokens: seq<Bytes>, q: Query, min: int, max: Option<int>) returns (r: Result<LookupResult>)
      ensures r.Ok? <==> min > 0
      ensures r.Ok? ==> exists all ::
        IsRanking(View(keys, EVERYTHING, Flat(BucketsOf(buckets, tokens))), all, q, min) && Capped(all, max, q.shortId, r.value)
      ensures r == if min > 0 then Ok(PlainAnswer(keys, buckets, tokens, q, min, max)) else Err
    {
      hide SortedByHits, Query.Passes, Keys.Of, Tally.Count, TallyAll, Report, Capped, IsRanking;
      if min <= 0 {
        return Err;
      }
      var ordered, t := Lookup(tokens);
      var refs: seq<Reference> := [];
      for i := 0 to |ordered|
        invariant refs == Kept(keys, t, q, min, ordered[..i])
      {
        assert ordered[..i + 1][..i] == ordered[..i];
        if q.Passes(ordered[i]) && t.Count(keys.Of(ordered[i])) >= min {
          refs := refs + [ordered[i]];
        }
      }
      assert ordered[..|ordered|] == ordered;
      r := Ok(Report(refs, max, q.shortId));
      var all := PlainAnswerRanks(keys, buckets, tokens, q, min, max);
    }
  }

  /**
    The plain answer reports the ranking of the hits: of every key the first reference, if it
    passes and the key is hit often enough, by falling hits and then by key.
    */
  lemma PlainAnswerRanks(keys: Keys, b: Buckets, tokens: seq<Bytes>, q: Query, min: int, max: Option<int>)
    returns (all: seq<Reference>)
    requires keys.Plain?
    ensures IsRanking(View(keys, EVERYTHING, Flat(BucketsOf(b, tokens))), all, q, min)
    ensures Capped(all, max, q.shortId, PlainAnswer(keys, b, tokens, q, min, max))
    ensures PlainAnswer(keys, b, tokens, q, min, max) == Report(all, max, q.shortId)
  {
    hide Keys.Of, Keys.Order, Tally.Count, SortedByHits, InOrder, Kept, TallyAll, View.Count, View.Leads, Query.Passes, OrderTells,
      DistinctKeys, Report, Capped;
    var v, t := View(keys, EVERYTHING, Flat(BucketsOf(b, tokens))), TallyAll(keys, EVERYTHING, BucketsOf(b, tokens));
    var s := SortedByHits(keys, t, t.firsts);
    all := Kept(keys, t, q, min, s);
    ReportCaps(all, max, q.shortId, Report(all, max, q.shortId));
    TallyAllExact(keys, EVERYTHING, BucketsOf(b, tokens));
    PlainOrderTells(keys, t.firsts);
    SortedStrict(t, v, t.firsts);
    KeptMembers(keys, t, q, min, s);
    KeptStrict(v, t, q, min, s);
    SameElements(s, t.firsts);
  }

  /** Every reference of every bucket has a manifest key. */
  ghost predicate KeyedBuckets(b: Buckets) {
    forall k <- b :: forall r <- b[k] :: r.manifestKey.Some?
  }

  lemma {:induction false} FlatWithin(b: Buckets, tokens: seq<Bytes>)
    ensures forall r <- Flat(BucketsOf(b, tokens)) :: exists k <- b :: r in b[k]
  {
    if tokens != [] {
      var n := |tokens| - 1;
      FlatWithin(b, tokens[..n]);
      assert BucketsOf(b, tokens)[..n] == BucketsOf(b, tokens[..n]);
    }
  }

  /**
    The authenticated answer reports the ranking of the hits that pass: of every key the first
    passing reference, if it is hit often enough by such, with its own tie-break.  References
    without a manifest key may tie.
    */
  lemma AuthenticatedAnswerRanks(h: Bytes -> Digest, b: Buckets, tokens: seq<Bytes>, q: Query, min: int, max: Option<int>)
    returns (all: seq<Reference>)
    requires NoneTwice(Authenticated(h), b)
    ensures IsLooseRanking(View(Authenticated(h), q, Flat(BucketsOf(b, tokens))), all, q, min)
    ensures KeyedBuckets(b) ==> IsRanking(View(Authenticated(h), q, Flat(BucketsOf(b, tokens))), all, q, min)
    ensures Capped(all, max, q.shortId, AuthenticatedAnswer(h, b, tokens, q, min, max))
    ensures AuthenticatedAnswer(h, b, tokens, q, min, max) == Report(all, max, q.shortId)
  {
    hide Keys.Of, Keys.Order, Tally.Count, SortedByHits, InOrder, Kept, TallyAll, KeyCount, FirstWith, OrderTells, DistinctKeys,
      Report, Capped, DistinctRefs, Precedes;
    var keys := Authenticated(h);
    var v, t := View(keys, q, Flat(BucketsOf(b, tokens))), TallyAll(keys, q, SortedBuckets(h, b, tokens));
    var s := Kept(keys, t, EVERYTHING, min, t.firsts);
    all := SortedByHits(keys, t, s);
    ReportCaps(all, max, q.shortId, Report(all, max, q.shortId));
    AuthenticatedTally(h, b, tokens, q);
    forall r | r in t.firsts ensures q.Passes(r) && (KeyedBuckets(b) ==> r.manifestKey.Some?) {
      LeaderCounts(v, r);
      FlatWithin(b, tokens);
    }
    hide View.Count, View.Leads, SortedBuckets, BucketsOf, KeyedBuckets;
    KeptMembers(keys, t, EVERYTHING, min, t.firsts);
    KeptDistinct(keys, t, EVERYTHING, min, t.firsts);
    SortedLoose(t, v, s);
    assert forall r :: r in all <==> r in s by {
      SortedRanks(t, v, s);
      SameElements(all, s);
    }
    assert DistinctRefs(all) by {
      SortedRanks(t, v, s);
      DistinctPermutes(keys, s, all);
      DistinctKeysIff(keys, all);
    }
    assert KeyedBuckets(b) ==> InOrder(v, all) by {
      if KeyedBuckets(b) {
        TupleTells(keys, s);
        SortedStrict(t, v, s);
      }
    }
  }

  /** Counted over the sorted buckets, the tally is what is seen of the buckets. */
  lemma AuthenticatedTally(h: Bytes -> Digest, b: Buckets, tokens: seq<Bytes>, q: Query)
    requires NoneTwice(Authenticated(h), b)
    ensures Tallies(TallyAll(Authenticated(h), q, SortedBuckets(h, b, tokens)), View(Authenticated(h), q, Flat(BucketsOf(b, tokens))))
  {
    hide Keys.Of, Tally.Count, TallyAll, KeyCount, FirstWith, DistinctKeys;
    var keys := Authenticated(h);
    var v := View(keys, q, Flat(BucketsOf(b, tokens)));
    TallyAllExact(keys, q, SortedBuckets(h, b, tokens));
    forall k ensures View(keys, q, Flat(SortedBuckets(h, b, tokens))).Count(k) == v.Count(k)
      && FirstWith(keys, q, Flat(SortedBuckets(h, b, tokens)), k) == FirstWith(keys, q, v.hits, k) {
      SortedHits(keys, q, b, tokens, k);
    }
  }

  // ----- the two tie-breaks -----

  /** A smaller manifest key with a larger short id. */
  predicate Inverted(r: Reference, s: Reference) {
    Less(OrEmpty(r.manifestKey), OrEmpty(s.manifestKey)) && Less(s.shortId, r.shortId)
  }

  /**
    The tie-breaks of the two indices, the key text and the tuple, order references with
    different manifest keys alike exactly when short ids do not run against manifest keys.
    */
  lemma TieBreaksAgree(p: Keys, a: Keys, r: Reference, s: Reference)
    requires p.Plain? && a.Authenticated? && r.manifestKey.Some? && s.manifestKey.Some? && r.manifestKey != s.manifestKey
    ensures (PartsLess(p.Order(r), p.Order(s)) <==> PartsLess(a.Order(r), a.Order(s))) <==> !Inverted(r, s) && !Inverted(s, r)
    ensures Inverted(r, s) ==> PartsLess(p.Order(r), p.Order(s)) && PartsLess(a.Order(s), a.Order(r))
  {
    hide Less, PartsLess;
    var mr, ms := r.manifestKey.value, s.manifestKey.value;
    LessAsymmetric(mr, ms);
    LessAsymmetric(r.shortId, s.shortId);
    LessTotal(mr, ms);
    LessTotal(r.shortId, s.shortId);
    PlainOrder(p, r, s);
    PartsAsymmetric(a.Order(r), a.Order(s));
    TupleOrder(a, r, s);
    TupleOrder(a, s, r);
  }

  lemma PlainOrder(p: Keys, r: Reference, s: Reference)
    requires p.Plain? && r.manifestKey.Some? && s.manifestKey.Some?
    ensures PartsLess(p.Order(r), p.Order(s)) <==> Less(r.manifestKey.value, s.manifestKey.value)
  {
    PrefixOrder(Ascii("mk:"), Hex(r.manifestKey.value), Hex(s.manifestKey.value));
    HexOrder(r.manifestKey.value, s.manifestKey.value);
  }

  lemma TupleOrder(a: Keys, r: Reference, s: Reference)
    requires a.Authenticated? && r.manifestKey.Some? && s.manifestKey.Some? && r.manifestKey != s.manifestKey
    ensures PartsLess(a.Order(r), a.Order(s)) <==>
      Less(r.shortId, s.shortId) || (r.shortId == s.shortId && Less(r.manifestKey.value, s.manifestKey.value))
  {
    var x, y := a.Order(r), a.Order(s);
    assert x[1..][0] == r.manifestKey.value && y[1..][0] == s.manifestKey.value;
  }

  // ----- what the two indices owe each other -----

  /** A lookup answers alike in both indices after the same history. */
  predicate AnswersAgree(docHash: Bytes -> Bytes, h: Bytes -> Digest, history: History, tokens: seq<Bytes>,
                         q: Query, min: int, max: Option<int>) {
    PlainAnswer(Plain(docHash), Replay(Plain(docHash), history), tokens, q, min, max)
    == AuthenticatedAnswer(h, Replay(Authenticated(h), history), tokens, q, min, max)
  }

  /** The references hit after a history of references with manifest keys. */
  function HitBy(docHash: Bytes -> Bytes, history: History, tokens: seq<Bytes>): (s: seq<Reference>) {
    Flat(BucketsOf(Replay(Plain(docHash), history), tokens))
  }

  /** All references that some bucket holds. */
  ghost function Held(b: Buckets): (s: set<Reference>) {
    set k, r | k in b && r in b[k] :: r
  }

  /** The references held after a history. */
  ghost function HeldAfter(docHash: Bytes -> Bytes, history: History): (s: set<Reference>) {
    Held(Replay(Plain(docHash), history))
  }

  lemma HitsHeld(docHash: Bytes -> Bytes, history: History, tokens: seq<Bytes>)
    requires AllKeyed(Referenced(history))
    ensures forall r <- HitBy(docHash, history, tokens) :: r in HeldAfter(docHash, history) && r.manifestKey.Some?
  {
    hide Replay;
    ReplaysAgree(Plain(docHash), Plain(docHash), Referenced(history), history);
    FlatWithin(Replay(Plain(docHash), history), tokens);
  }

  /** Both answers to a lookup, as reports of rankings over one history. */
  lemma BothRank(docHash: Bytes -> Bytes, h: Bytes -> Digest, history: History, tokens: seq<Bytes>, q: Query, min: int, max: Option<int>)
    returns (plain: seq<Reference>, auth: seq<Reference>)
    requires AllKeyed(Referenced(history))
    ensures IsRanking(View(Plain(docHash), EVERYTHING, HitBy(docHash, history, tokens)), plain, q, min)
    ensures IsRanking(View(Authenticated(h), q, HitBy(docHash, history, tokens)), auth, q, min)
    ensures PlainAnswer(Plain(docHash), Replay(Plain(docHash), history), tokens, q, min, max) == Report(plain, max, q.shortId)
    ensures AuthenticatedAnswer(h, Replay(Authenticated(h), history), tokens, q, min, max) == Report(auth, max, q.shortId)
  {
    hide Replay, IsRanking, AllKeyed, Report, PlainAnswer, AuthenticatedAnswer, NoneTwice;
    var p, a, refs := Plain(docHash), Authenticated(h), Referenced(history);
    ReplaysAgree(p, a, refs, history);
    ReplayDistinct(a, history);
    var b := Replay(p, history);
    assert KeyedBuckets(b) by { DrawsKeyed(b, refs); }
    plain := PlainAnswerRanks(p, b, tokens, q, min, max);
    auth := AuthenticatedAnswerRanks(h, b, tokens, q, min, max);
  }

  lemma DrawsKeyed(b: Buckets, refs: set<Reference>)
    requires Draws(b, refs) && AllKeyed(refs)
    ensures KeyedBuckets(b)
  {
  }

  /** Equal manifest keys go with equal short ids and namespaces. */
  ghost predicate Consistent(refs: set<Reference>) {
    forall r, s :: r in refs && s in refs && r.manifestKey == s.manifestKey ==> SameRoute(r, s)
  }

  predicate SameRoute(r: Reference, s: Reference) {
    r.shortId == s.shortId && r.namespaceId == s.namespaceId
  }

  /** No short id runs against a manifest key. */
  ghost predicate Aligned(refs: set<Reference>) {
    forall r, s :: r in refs && s in refs ==> !Inverted(r, s)
  }

  /** Where everything with a key passes, filtering before the tally changes nothing for the key. */
  lemma {:induction false} PassingKey(p: Keys, a: Keys, q: Query, s: seq<Reference>, k: Bytes)
    requires forall x <- s :: p.Of(x) == a.Of(x) && (p.Of(x) == k ==> q.Passes(x))
    ensures KeyCount(p, EVERYTHING, s, k) == KeyCount(a, q, s, k) && FirstWith(p, EVERYTHING, s, k) == FirstWith(a, q, s, k)
  {
    hide Keys.Of;
    if s != [] {
      assert s == s[..|s| - 1] + [s[|s| - 1]];
      PassingKey(p, a, q, s[..|s| - 1], k);
    }
  }

  /** Among consistent references the two views agree on what passes. */
  lemma ViewsAgree(p: Keys, a: Keys, q: Query, s: seq<Reference>, refs: set<Reference>, r: Reference)
    requires Consistent(refs) && (forall x <- s :: x in refs && x.manifestKey.Some?)
    requires r in s && q.Passes(r)
    ensures View(p, EVERYTHING, s).HitsOf(r) == View(a, q, s).HitsOf(r)
    ensures View(p, EVERYTHING, s).Leads(r) <==> View(a, q, s).Leads(r)
  {
    hide Keys.Of, KeyCount, FirstWith;
    forall x | x in s ensures p.Of(x) == a.Of(x) && (p.Of(x) == p.Of(r) ==> q.Passes(x)) {
      SameKeys(p, a, x);
      KeyInjective(p, x, r);
    }
    PassingKey(p, a, q, s, p.Of(r));
  }

  /** Where no short id runs against a manifest key, both indices rank the same list. */
  lemma RankingsAgree(p: Keys, a: Keys, s: seq<Reference>, refs: set<Reference>, q: Query, min: int,
                      plain: seq<Reference>, auth: seq<Reference>)
    requires p.Plain? && a.Authenticated? && Consistent(refs) && (forall x <- s :: x in refs && x.manifestKey.Some?)
    requires IsRanking(View(p, EVERYTHING, s), plain, q, min) && IsRanking(View(a, q, s), auth, q, min)
    requires forall x, y :: x in plain && y in plain ==> !Inverted(x, y)
    ensures plain == auth
  {
    hide Keys.Order, Keys.Of, Consistent, PartsLess, Inverted, View.HitsOf, View.Leads, Query.Passes;
    var v, w := View(p, EVERYTHING, s), View(a, q, s);
    forall r ensures (v.Leads(r) && q.Passes(r) && v.HitsOf(r) >= min) <==> (w.Leads(r) && q.Passes(r) && w.HitsOf(r) >= min) {
      if v.Leads(r) && q.Passes(r) { LeaderCounts(v, r); ViewsAgree(p, a, q, s, refs, r); }
      if w.Leads(r) { LeaderCounts(w, r); ViewsAgree(p, a, q, s, refs, r); }
    }
    forall i, j | 0 <= i < j < |plain| ensures Precedes(w, plain[i], plain[j]) {
      var x, y := plain[i], plain[j];
      assert x in plain && y in plain && Precedes(v, x, y);
      LeaderCounts(v, x);
      LeaderCounts(v, y);
      ViewsAgree(p, a, q, s, refs, x);
      ViewsAgree(p, a, q, s, refs, y);
      RankedApart(v, x, y);
      TieBreaksAgree(p, a, x, y);
    }
    RankingUnique(w, q, min, plain, auth);
  }

  /** What precedes in the plain order has another key. */
  lemma RankedApart(v: View, r: Reference, s: Reference)
    requires v.keys.Plain? && Precedes(v, r, s)
    ensures r.manifestKey.None? || r.manifestKey != s.manifestKey
  {
    PartsAsymmetric(v.keys.Order(r), v.keys.Order(r));
  }

  /**
    The authenticated index refines the plain one: after the same history of references with
    manifest keys, where equal keys go with equal short ids and namespaces, a lookup with a short
    id answers alike in both, whatever the tokens, namespace, threshold and cap.
    */
  lemma LookupsAgree(docHash: Bytes -> Bytes, h: Bytes -> Digest, history: History, tokens: seq<Bytes>,
                     q: Query, min: int, max: Option<int>)
    requires AllKeyed(Referenced(history)) && Consistent(HeldAfter(docHash, history)) && q.shortId.Some?
    ensures AnswersAgree(docHash, h, history, tokens, q, min, max)
  {
    hide Replay, AllKeyed, Consistent, Report, PlainAnswer, AuthenticatedAnswer, InOrder, Less, HitBy, HeldAfter, View.Leads,
      View.HitsOf;
    var plain, auth := BothRank(docHash, h, history, tokens, q, min, max);
    forall r, s | r in plain && s in plain ensures !Inverted(r, s) { LessAsymmetric(r.shortId, s.shortId); }
    HitsHeld(docHash, history, tokens);
    RankingsAgree(Plain(docHash), Authenticated(h), HitBy(docHash, history, tokens), HeldAfter(docHash, history), q, min, plain, auth);
  }

  lemma AlignedAgree(docHash: Bytes -> Bytes, h: Bytes -> Digest, history: History, tokens: seq<Bytes>,
                     q: Query, min: int, max: Option<int>)
    requires AllKeyed(Referenced(history)) && Consistent(HeldAfter(docHash, history)) && Aligned(HeldAfter(docHash, history))
    ensures AnswersAgree(docHash, h, history, tokens, q, min, max)
  {
    hide Replay, AllKeyed, Consistent, Report, PlainAnswer, AuthenticatedAnswer, InOrder, Inverted, HitBy, HeldAfter, View.Leads,
      View.HitsOf;
    var plain, auth := BothRank(docHash, h, history, tokens, q, min, max);
    HitsHeld(docHash, history, tokens);
    forall r | r in plain ensures r in HeldAfter(docHash, history) {
      LeaderCounts(View(Plain(docHash), EVERYTHING, HitBy(docHash, history, tokens)), r);
    }
    RankingsAgree(Plain(docHash), Authenticated(h), HitBy(docHash, history, tokens), HeldAfter(docHash, history), q, min, plain, auth);
  }

  // ----- when they do not -----

  lemma FlatOne(b: Buckets, k: Bytes)
    ensures Flat(BucketsOf(b, [k])) == Bucket(b, k)
  {
    assert BucketsOf(b, [k])[..0] == [];
  }

  lemma FlatTwo(b: Buckets, k: Bytes, l: Bytes)
    ensures Flat(BucketsOf(b, [k, l])) == Bucket(b, k) + Bucket(b, l)
  {
    FlatOne(b, k);
    assert BucketsOf(b, [k, l])[..1] == BucketsOf(b, [k]);
  }

  /** How often bucket `s` hits the key of `r`. */
  lemma OnceIn(keys: Keys, s: seq<Reference>, r: Reference)
    requires DistinctKeys(keys, s)
    ensures KeyCount(keys, EVERYTHING, s, keys.Of(r)) == if exists x <- s :: keys.Of(x) == keys.Of(r) then 1 else 0
  {
    hide Keys.Of, KeyCount, DistinctKeys;
    if x :| x in s && keys.Of(x) == keys.Of(r) {
      CountDistinct(keys, EVERYTHING, s, x);
    } else {
      CountNone(keys, EVERYTHING, s, keys.Of(r));
    }
  }

  /** Some tokens hit the keys of any two held references once each. */
  lemma MeetingTokens(keys: Keys, b: Buckets, r: Reference, s: Reference) returns (tokens: seq<Bytes>)
    requires NoneTwice(keys, b) && r in Held(b) && s in Held(b)
    ensures forall t <- tokens :: t in b
    ensures var v := View(keys, EVERYTHING, Flat(BucketsOf(b, tokens))); v.HitsOf(r) == v.HitsOf(s) == 1
  {
    hide Keys.Of, DistinctKeys, KeyCount;
    var k :| k in b && r in b[k];
    var l :| l in b && s in b[l];
    var x, y := keys.Of(r), keys.Of(s);
    assert KeyCount(keys, EVERYTHING, b[k], x) == 1 && KeyCount(keys, EVERYTHING, b[k], y) <= 1 by {
      OnceIn(keys, b[k], r);
      OnceIn(keys, b[k], s);
    }
    assert KeyCount(keys, EVERYTHING, b[l], y) == 1 && KeyCount(keys, EVERYTHING, b[l], x) <= 1 by {
      OnceIn(keys, b[l], r);
      OnceIn(keys, b[l], s);
    }
    hide Flat, BucketsOf;
    if KeyCount(keys, EVERYTHING, b[k], y) == 1 {
      tokens := [k];
      FlatOne(b, k);
    } else if KeyCount(keys, EVERYTHING, b[l], x) == 1 {
      tokens := [l];
      FlatOne(b, l);
    } else {
      tokens := [k, l];
      FlatTwo(b, k, l);
      CountConcat(keys, EVERYTHING, b[k], b[l], x);
      CountConcat(keys, EVERYTHING, b[k], b[l], y);
    }
  }

  /** The first reference with the key of a reference that is hit. */
  lemma LeaderOf(v: View, r: Reference) returns (x: Reference)
    requires v.HitsOf(r) > 0
    ensures v.Leads(x) && v.keys.Of(x) == v.keys.Of(r) && v.HitsOf(x) == v.HitsOf(r)
  {
    hide Keys.Of, KeyCount;
    x := FirstWith(v.keys, v.q, v.hits, v.keys.Of(r)).value;
  }

  ghost predicate Before(all: seq<Reference>, r: Reference, s: Reference) {
    exists i, j :: 0 <= i < j < |all| && all[i] == r && all[j] == s
  }

  lemma OrderedOneWay(v: View, all: seq<Reference>, r: Reference, s: Reference)
    requires InOrder(v, all) && r in all && s in all && r != s && !Precedes(v, s, r)
    ensures Before(all, r, s) && !Before(all, s, r)
  {
    hide Precedes;
  }

  /** Equally often hit references whose short ids run against their keys are ranked in opposite order. */
  lemma RankingsDiffer(v: View, w: View, q: Query, min: int, plain: seq<Reference>, auth: seq<Reference>, r: Reference, s: Reference)
    requires v.keys.Plain? && w.keys.Authenticated? && IsRanking(v, plain, q, min) && IsRanking(w, auth, q, min)
    requires r in plain && s in plain && r in auth && s in auth && v.HitsOf(r) == v.HitsOf(s) && w.HitsOf(r) == w.HitsOf(s)
    requires r.manifestKey.Some? && s.manifestKey.Some? && Inverted(r, s)
    ensures plain != auth
  {
    hide Keys.Order, PartsLess, View.HitsOf, View.Leads, Query.Passes;
    LessAsymmetric(r.manifestKey.value, s.manifestKey.value);
    hide Inverted;
    TieBreaksAgree(v.keys, w.keys, r, s);
    PartsAsymmetric(v.keys.Order(r), v.keys.Order(s));
    PartsAsymmetric(w.keys.Order(r), w.keys.Order(s));
    OrderedOneWay(v, plain, r, s);
    OrderedOneWay(w, auth, s, r);
  }

  /** Held references whose short ids run against their keys come out in different orders for some tokens. */
  lemma InvertedDiffer(docHash: Bytes -> Bytes, h: Bytes -> Digest, history: History, r: Reference, s: Reference)
    returns (tokens: seq<Bytes>)
    requires AllKeyed(Referenced(history)) && Consistent(HeldAfter(docHash, history)) && Inverted(r, s)
    requires r in HeldAfter(docHash, history) && s in HeldAfter(docHash, history)
    ensures forall t <- tokens :: t in Replay(Plain(docHash), history)
    ensures !AnswersAgree(docHash, h, history, tokens, EVERYTHING, 1, None)
  {
    var p, a, b := Plain(docHash), Authenticated(h), Replay(Plain(docHash), history);
    hide Keys.Of, Replay, PlainAnswer, AuthenticatedAnswer, InOrder, KeyCount, FirstWith, NoneTwice, Flat, BucketsOf;
    ReplayDistinct(p, history);
    ReplaysAgree(p, p, Referenced(history), history);
    tokens := MeetingTokens(p, b, r, s);
    var hits := HitBy(docHash, history, tokens);
    var v, w := View(p, EVERYTHING, hits), View(a, EVERYTHING, hits);
    HitsHeld(docHash, history, tokens);
    var x := LeaderOf(v, r);
    var y := LeaderOf(v, s);
    LeaderCounts(v, x);
    LeaderCounts(v, y);
    KeyInjective(p, x, r);
    KeyInjective(p, y, s);
    assert Inverted(x, y);
    ViewsAgree(p, a, EVERYTHING, hits, HeldAfter(docHash, history), x);
    ViewsAgree(p, a, EVERYTHING, hits, HeldAfter(docHash, history), y);
    var plain, auth := BothRank(docHash, h, history, tokens, EVERYTHING, 1, None);
    hide HitBy, HeldAfter, Held, Consistent, AllKeyed, Inverted;
    RankingsDiffer(v, w, EVERYTHING, 1, plain, auth, x, y);
  }

  /** A query that one of two references with one key passes and the other does not. */
  lemma TellingQuery(r: Reference, s: Reference) returns (first: Reference, second: Reference, q: Query)
    requires !SameRoute(r, s)
    ensures (first == r && second == s) || (first == s && second == r)
    ensures q.shortId.Some? && q.Passes(second) && !q.Passes(first)
  {
    if r.shortId == s.shortId && s.namespaceId.None? {
      first, second := s, r;
    } else {
      first, second := r, s;
    }
    q := Query(Some(second.shortId), if r.shortId == s.shortId then second.namespaceId else None);
  }

  /**
    Held references with one key but different short ids or namespaces: filtering before the
    tally or after it makes a difference for some tokens.
    */
  lemma InconsistentDiffer(docHash: Bytes -> Bytes, h: Bytes -> Digest, history: History, r: Reference, s: Reference)
    returns (tokens: seq<Bytes>, q: Query)
    requires AllKeyed(Referenced(history)) && r.manifestKey == s.manifestKey && !SameRoute(r, s)
    requires r in HeldAfter(docHash, history) && s in HeldAfter(docHash, history)
    ensures q.shortId.Some? && forall t <- tokens :: t in Replay(Plain(docHash), history)
    ensures !AnswersAgree(docHash, h, history, tokens, q, 1, None)
  {
    var p, a, b := Plain(docHash), Authenticated(h), Replay(Plain(docHash), history);
    hide Keys.Of, Replay, PlainAnswer, AuthenticatedAnswer, InOrder, KeyCount, FirstWith, DistinctKeys, Query.Passes, SameRoute;
    ReplayDistinct(p, history);
    ReplayDistinct(a, history);
    ReplaysAgree(p, a, Referenced(history), history);
    var first, second: Reference;
    first, second, q := TellingQuery(r, s);
    var k :| k in b && first in b[k];
    var l :| l in b && second in b[l];
    tokens := [k, l];
    FlatTwo(b, k, l);
    var plain, auth := BothRank(docHash, h, history, tokens, q, 1, None);
    assert second !in plain by { FirstWins(p, b[k], b[l], first, second); }
    assert second in auth by { SecondCounts(a, q, b[k], b[l], first, second); }
  }

  lemma FirstWins(keys: Keys, s: seq<Reference>, t: seq<Reference>, first: Reference, second: Reference)
    requires DistinctKeys(keys, s) && first in s && first != second
    requires first.manifestKey.Some? && first.manifestKey == second.manifestKey
    ensures !View(keys, EVERYTHING, s + t).Leads(second)
  {
    KeyInjective(keys, first, second);
    hide Keys.Of, KeyCount, FirstWith, DistinctKeys;
    CountDistinct(keys, EVERYTHING, s, first);
    CountConcat(keys, EVERYTHING, s, t, keys.Of(first));
  }

  lemma SecondCounts(keys: Keys, q: Query, s: seq<Reference>, t: seq<Reference>, first: Reference, second: Reference)
    requires DistinctKeys(keys, s) && DistinctKeys(keys, t) && first in s && second in t && q.Passes(second) && !q.Passes(first)
    requires first.manifestKey.Some? && first.manifestKey == second.manifestKey
    ensures View(keys, q, s + t).Leads(second) && View(keys, q, s + t).HitsOf(second) == 1
  {
    KeyInjective(keys, first, second);
    hide Keys.Of, KeyCount, FirstWith, DistinctKeys, Query.Passes;
    CountDistinct(keys, q, s, first);
    CountDistinct(keys, q, t, second);
    CountConcat(keys, q, s, t, keys.Of(first));
  }

  /**
    Exactly when the two indices agree: every lookup, with a short id or without, is answered
    alike if and only if equal manifest keys go with equal short ids and namespaces, and no held
    reference with a smaller manifest key has a larger short id.
    */
  lemma AgreeIffAligned(docHash: Bytes -> Bytes, h: Bytes -> Digest, history: History)
    requires AllKeyed(Referenced(history))
    ensures (forall tokens, q, min, max :: AnswersAgree(docHash, h, history, tokens, q, min, max))
      <==> Consistent(HeldAfter(docHash, history)) && Aligned(HeldAfter(docHash, history))
  {
    hide AllKeyed, Replay, AnswersAgree, Inverted, HeldAfter, SameRoute;
    var held := HeldAfter(docHash, history);
    if Consistent(held) && Aligned(held) {
      forall tokens, q, min, max ensures AnswersAgree(docHash, h, history, tokens, q, min, max) {
        AlignedAgree(docHash, h, history, tokens, q, min, max);
      }
    } else if Consistent(held) {
      var r, s :| r in held && s in held && Inverted(r, s);
      var tokens := InvertedDiffer(docHash, h, history, r, s);
    } else {
      var r, s :| r in held && s in held && r.manifestKey == s.manifestKey && !SameRoute(r, s);
      var tokens, q := InconsistentDiffer(docHash, h, history, r, s);
    }
  }

  /** With a short id the order of keys does not matter: all such lookups agree exactly under the first condition. */
  lemma ShortIdAgreeIff(docHash: Bytes -> Bytes, h: Bytes -> Digest, history: History)
    requires AllKeyed(Referenced(history))
    ensures (forall tokens, q: Query, min, max :: q.shortId.Some? ==> AnswersAgree(docHash, h, history, tokens, q, min, max))
      <==> Consistent(HeldAfter(docHash, history))
  {
    hide AllKeyed, Replay, AnswersAgree, HeldAfter, SameRoute;
    var held := HeldAfter(docHash, history);
    if Consistent(held) {
      forall tokens, q: Query, min, max | q.shortId.Some? ensures AnswersAgree(docHash, h, history, tokens, q, min, max) {
        LookupsAgree(docHash, h, history, tokens, q, min, max);
      }
    } else {
      var r, s :| r in held && s in held && r.manifestKey == s.manifestKey && !SameRoute(r, s);
      var tokens, q := InconsistentDiffer(docHash, h, history, r, s);
    }
  }

  // ----- references derived from manifest bytes -----

  /** Short id and manifest key are the first 8 and 20 bytes of one digest. */
  predicate Derived(r: Reference) {
    r.manifestKey.Some? && |r.manifestKey.value| == 20 && r.shortId == r.manifestKey.value[..8]
  }

  lemma {:induction false} PrefixLess(a: Bytes, b: Bytes, n: nat)
    requires n <= |a| && n <= |b| && Less(a[..n], b[..n])
    ensures Less(a, b)
  {
    if n > 0 && a[0] == b[0] {
      assert a[..n][1..] == a[1..][..n - 1] && b[..n][1..] == b[1..][..n - 1];
      PrefixLess(a[1..], b[1..], n - 1);
    }
  }

  /** Short ids derived from the digest never run against manifest keys. */
  lemma DerivedAligned(r: Reference, s: Reference)
    requires Derived(r) && Derived(s)
    ensures !Inverted(r, s) && (r.manifestKey == s.manifestKey ==> r.shortId == s.shortId)
  {
    hide Less;
    var x, y := r.manifestKey.value, s.manifestKey.value;
    if Less(s.shortId, r.shortId) {
      PrefixLess(y, x, 8);
      LessAsymmetric(x, y);
    }
  }

  /** One namespace, or none, per manifest key. */
  ghost predicate OneNamespace(refs: set<Reference>) {
    forall r, s :: r in refs && s in refs && r.manifestKey == s.manifestKey ==> r.namespaceId == s.namespaceId
  }

  /**
    For references the program derives itself, the two indices answer every lookup alike, with a
    short id or without, if and only if no manifest is held under two namespaces.
    */
  lemma DerivedAgreeIff(docHash: Bytes -> Bytes, h: Bytes -> Digest, history: History)
    requires forall r <- Referenced(history) :: Derived(r)
    ensures (forall tokens, q, min, max :: AnswersAgree(docHash, h, history, tokens, q, min, max))
      <==> OneNamespace(HeldAfter(docHash, history))
  {
    hide Replay, AnswersAgree, Less;
    ReplaysAgree(Plain(docHash), Authenticated(h), Referenced(history), history);
    var held := HeldAfter(docHash, history);
    forall r, s | r in held && s in held ensures !Inverted(r, s) && (r.manifestKey == s.manifestKey ==> r.shortId == s.shortId) {
      DerivedAligned(r, s);
    }
    hide Derived, Inverted, HeldAfter;
    AgreeIffAligned(docHash, h, history);
  }

  // ----- references that do differ -----

  lemma AddedOne(keys: Keys, b: Buckets, r: Reference, token: Bytes)
    ensures Added(keys, b, r, [token]) == b[token := Append(keys, Bucket(b, token), r)]
  {
    hide Append;
    assert [token][..0] == [];
    assert Added(keys, b, r, []) == b;
  }

  lemma ReplaySnoc(keys: Keys, history: History, r: Reference, tokens: seq<Bytes>)
    ensures Replay(keys, history + [(r, tokens)]) == Added(keys, Replay(keys, history), r, tokens)
    ensures Referenced(history + [(r, tokens)]) == Referenced(history) + {r}
  {
    hide Added;
    var all := history + [(r, tokens)];
    assert all[..|all| - 1] == history && all[|history|] == (r, tokens);
    forall x | x in Referenced(history) ensures x in Referenced(all) {
      var i :| 0 <= i < |history| && history[i].0 == x;
      assert all[i].0 == x;
    }
  }

  lemma AppendTwo(keys: Keys, r: Reference, s: Reference)
    ensures Append(keys, [], r) == [r]
    ensures keys.Of(r) != keys.Of(s) ==> Append(keys, [r], s) == [r, s]
  {
    hide Keys.Of;
  }

  lemma TwoAdded(keys: Keys, r: Reference, k: Bytes, s: Reference, l: Bytes)
    requires k != l || keys.Of(r) != keys.Of(s)
    ensures Referenced([(r, [k]), (s, [l])]) == {r, s}
    ensures Replay(keys, [(r, [k]), (s, [l])]) == if k == l then map[k := [r, s]] else map[k := [r], l := [s]]
  {
    assert Replay(keys, []) == map[] && Referenced([]) == {};
    hide Keys.Of, Append, Added, Replay, Referenced;
    ReplaySnoc(keys, [], r, [k]);
    ReplaySnoc(keys, [(r, [k])], s, [l]);
    assert [] + [(r, [k])] == [(r, [k])] && [(r, [k])] + [(s, [l])] == [(r, [k]), (s, [l])];
    AddedOne(keys, map[], r, k);
    AddedOne(keys, map[k := [r]], s, l);
    AppendTwo(keys, r, s);
    AppendTwo(keys, s, r);
  }

  /** A registry-assigned short id beside a manifest key. */
  function Sample(shortId: byte, key: byte): Reference {
    Reference(seq(8, _ => shortId), Some(seq(20, _ => key)), None, None, [], None, Ascii(NAMESPACED_REGISTRY), None, [])
  }

  lemma SampleInverted()
    ensures var r, s := Sample(1, 2), Sample(2, 1); Inverted(s, r) && r != s && r.manifestKey != s.manifestKey
  {
    var r, s := Sample(1, 2), Sample(2, 1);
    assert r.shortId[0] == 1 && s.shortId[0] == 2 && r.manifestKey.value[0] == 2 && s.manifestKey.value[0] == 1;
    hide NAMESPACED_REGISTRY, Ascii;
  }

  /** Two references whose short ids run against their keys, alone in a bucket. */
  lemma PairDiffers(docHash: Bytes -> Bytes, h: Bytes -> Digest, r: Reference, s: Reference, token: Bytes)
    requires r.manifestKey.Some? && s.manifestKey.Some? && r.manifestKey != s.manifestKey && Inverted(s, r)
    ensures var history := [(r, [token]), (s, [token])];
      && PlainAnswer(Plain(docHash), Replay(Plain(docHash), history), [token], EVERYTHING, 1, None).references == [s, r]
      && AuthenticatedAnswer(h, Replay(Authenticated(h), history), [token], EVERYTHING, 1, None).references == [r, s]
  {
    var p, a, history := Plain(docHash), Authenticated(h), [(r, [token]), (s, [token])];
    KeyInjective(p, r, s);
    KeyInjective(a, r, s);
    hide Keys.Of, Keys.Order, Replay, PlainAnswer, AuthenticatedAnswer, Inverted, PartsLess, IsRanking;
    TwoAdded(p, r, token, s, token);
    var plain, auth := BothRank(docHash, h, history, [token], EVERYTHING, 1, None);
    assert HitBy(docHash, history, [token]) == [r, s] by { FlatOne(map[token := [r, s]], token); }
    assert PartsLess(p.Order(s), p.Order(r)) && PartsLess(a.Order(r), a.Order(s)) by { TieBreaksAgree(p, a, s, r); }
    assert plain == [s, r] by {
      PairRanking(p, r, s, s, r);
      RankingUnique(View(p, EVERYTHING, [r, s]), EVERYTHING, 1, plain, [s, r]);
    }
    assert auth == [r, s] by {
      PairRanking(a, r, s, r, s);
      RankingUnique(View(a, EVERYTHING, [r, s]), EVERYTHING, 1, auth, [r, s]);
    }
  }

  lemma PairRanking(keys: Keys, r: Reference, s: Reference, x: Reference, y: Reference)
    requires keys.Of(r) != keys.Of(s) && ((x == r && y == s) || (x == s && y == r)) && PartsLess(keys.Order(x), keys.Order(y))
    ensures IsRanking(View(keys, EVERYTHING, [r, s]), [x, y], EVERYTHING, 1)
  {
    hide Keys.Of, Keys.Order, PartsLess;
    var v := View(keys, EVERYTHING, [r, s]);
    assert [r, s][..1] == [r] && [r][..0] == [];
    forall z ensures v.Leads(z) <==> z == r || z == s {
      PairFirst(keys, r, s, keys.Of(z));
    }
    PairFirst(keys, r, s, keys.Of(r));
    PairFirst(keys, r, s, keys.Of(s));
  }

  lemma PairFirst(keys: Keys, r: Reference, s: Reference, k: Bytes)
    ensures FirstWith(keys, EVERYTHING, [r, s], k) == if keys.Of(r) == k then Some(r) else if keys.Of(s) == k then Some(s) else None
    ensures KeyCount(keys, EVERYTHING, [r, s], k) == (if keys.Of(r) == k then 1 else 0) + (if keys.Of(s) == k then 1 else 0)
  {
    hide Keys.Of;
    var none: seq<Reference> := [];
    assert none + [r] == [r] && [r] + [s] == [r, s];
    CountSnoc(keys, EVERYTHING, none, r, k);
    CountSnoc(keys, EVERYTHING, [r], s, k);
  }

  /**
    Without a short id the answers can differ in order: of two references in one bucket the plain
    index returns the one with the smaller manifest key first, the authenticated one the one with
    the smaller short id.
    */
  lemma WithoutShortIdOrderDiffers(docHash: Bytes -> Bytes, h: Bytes -> Digest, token: Bytes)
    ensures var r, s := Sample(1, 2), Sample(2, 1);
      var history := [(r, [token]), (s, [token])];
      && PlainAnswer(Plain(docHash), Replay(Plain(docHash), history), [token], EVERYTHING, 1, None).references == [s, r]
      && AuthenticatedAnswer(h, Replay(Authenticated(h), history), [token], EVERYTHING, 1, None).references == [r, s]
  {
    SampleInverted();
    assert Sample(1, 2).manifestKey.Some? && Sample(2, 1).manifestKey.Some?;
    hide Replay, PlainAnswer, AuthenticatedAnswer, Sample, Inverted;
    PairDiffers(docHash, h, Sample(1, 2), Sample(2, 1), token);
  }

  /** One manifest, as derived, under a namespace. */
  function Namespaced(namespace: byte): (r: Reference)
    ensures Derived(r)
  {
    Reference(seq(8, _ => 0), Some(seq(20, _ => 0)), None, None, [], Some([namespace, namespace]), Ascii(HASH_TRUNCATED), None, [])
  }

  /**
    One manifest added under two namespaces with different tokens: asked for the second one, the
    plain index answers nothing, since it tallies the first and drops it then, and the
    authenticated index answers the second.
    */
  lemma TwoNamespacesDiffer(docHash: Bytes -> Bytes, h: Bytes -> Digest, k: Bytes, l: Bytes)
    requires k != l
    ensures var r, s := Namespaced(1), Namespaced(2);
      var history, q := [(r, [k]), (s, [l])], Query(Some(s.shortId), s.namespaceId);
      && PlainAnswer(Plain(docHash), Replay(Plain(docHash), history), [k, l], q, 1, None).references == []
      && AuthenticatedAnswer(h, Replay(Authenticated(h), history), [k, l], q, 1, None).references == [s]
  {
    var r, s := Namespaced(1), Namespaced(2);
    var history, q := [(r, [k]), (s, [l])], Query(Some(s.shortId), s.namespaceId);
    assert r.namespaceId.value[0] == 1 && s.namespaceId.value[0] == 2;
    assert r.manifestKey == s.manifestKey && r.shortId == s.shortId && s.namespaceId.Some?;
    hide Replay, PlainAnswer, AuthenticatedAnswer, Namespaced;
    NamespacesDiffer(docHash, h, r, s, k, l);
  }

  lemma NamespacesDiffer(docHash: Bytes -> Bytes, h: Bytes -> Digest, r: Reference, s: Reference, k: Bytes, l: Bytes)
    requires k != l && r.manifestKey.Some? && r.manifestKey == s.manifestKey && r.namespaceId != s.namespaceId && s.namespaceId.Some?
    ensures var history, q := [(r, [k]), (s, [l])], Query(Some(s.shortId), s.namespaceId);
      && PlainAnswer(Plain(docHash), Replay(Plain(docHash), history), [k, l], q, 1, None).references == []
      && AuthenticatedAnswer(h, Replay(Authenticated(h), history), [k, l], q, 1, None).references == [s]
  {
    var history, q := [(r, [k]), (s, [l])], Query(Some(s.shortId), s.namespaceId);
    assert q.Passes(s) && !q.Passes(r);
    hide Keys.Of, Replay, PlainAnswer, AuthenticatedAnswer, Query.Passes, IsRanking, HitBy, Referenced;
    var p, a := Plain(docHash), Authenticated(h);
    assert AllKeyed(Referenced(history)) && HitBy(docHash, history, [k, l]) == [r, s] by { TwoHit(docHash, r, k, s, l); }
    var plain, auth := BothRank(docHash, h, history, [k, l], q, 1, None);
    hide AllKeyed;
    assert plain == [] by {
      NothingRanked(p, q, r, s);
      RankingUnique(View(p, EVERYTHING, [r, s]), q, 1, plain, []);
    }
    assert auth == [s] by {
      SecondRanked(a, q, r, s);
      RankingUnique(View(a, q, [r, s]), q, 1, auth, [s]);
    }
  }

  lemma TwoHit(docHash: Bytes -> Bytes, r: Reference, k: Bytes, s: Reference, l: Bytes)
    requires k != l
    ensures Referenced([(r, [k]), (s, [l])]) == {r, s} && HitBy(docHash, [(r, [k]), (s, [l])], [k, l]) == [r, s]
  {
    hide Replay, Flat, BucketsOf, Keys.Of, Referenced;
    TwoAdded(Plain(docHash), r, k, s, l);
    FlatTwo(map[k := [r], l := [s]], k, l);
  }

  lemma NothingRanked(keys: Keys, q: Query, r: Reference, s: Reference)
    requires r.manifestKey.Some? && r.manifestKey == s.manifestKey && !q.Passes(r) && q.Passes(s)
    ensures IsRanking(View(keys, EVERYTHING, [r, s]), [], q, 1)
  {
    KeyInjective(keys, r, s);
    hide Keys.Of, Query.Passes, KeyCount, FirstWith;
    forall z | View(keys, EVERYTHING, [r, s]).Leads(z) ensures z == r {
      PairFirst(keys, r, s, keys.Of(z));
    }
  }

  lemma SecondRanked(keys: Keys, q: Query, r: Reference, s: Reference)
    requires r.manifestKey.Some? && r.manifestKey == s.manifestKey && !q.Passes(r) && q.Passes(s)
    ensures IsRanking(View(keys, q, [r, s]), [s], q, 1)
  {
    hide Keys.Of, Query.Passes;
    var none: seq<Reference> := [];
    assert none + [r] == [r] && [r] + [s] == [r, s];
    forall k ensures FirstWith(keys, q, [r, s], k) == (if keys.Of(s) == k then Some(s) else None)
                  && KeyCount(keys, q, [r, s], k) == (if keys.Of(s) == k then 1 else 0) {
      CountSnoc(keys, q, none, r, k);
      CountSnoc(keys, q, [r], s, k);
    }
  }

  /** One reference in one bucket is what the plain index answers. */
  lemma SingleAnswer(docHash: Bytes -> Bytes, h: Bytes -> Digest, r: Reference, token: Bytes)
    requires r.manifestKey.Some?
    ensures var history := [(r, [token])];
      && Replay(Plain(docHash), history) == Replay(Authenticated(h), history) == map[token := [r]]
      && PlainAnswer(Plain(docHash), map[token := [r]], [token], EVERYTHING, 1, None).references == [r]
  {
    hide Keys.Of, Keys.Order, PlainAnswer, IsRanking, PartsLess, Replay, Append;
    var p, b := Plain(docHash), map[token := [r]];
    SingleReplays(p, r, token);
    SingleReplays(Authenticated(h), r, token);
    var all := PlainAnswerRanks(p, b, [token], EVERYTHING, 1, None);
    assert Flat(BucketsOf(b, [token])) == [r] by { FlatOne(b, token); }
    assert all == [r] by {
      SingleRanking(p, r);
      RankingUnique(View(p, EVERYTHING, [r]), EVERYTHING, 1, all, [r]);
    }
  }

  lemma SingleReplays(keys: Keys, r: Reference, token: Bytes)
    ensures Referenced([(r, [token])]) == {r}
    ensures Replay(keys, [(r, [token])]) == map[token := [r]]
  {
    hide Keys.Of;
    var history, none: History := [(r, [token])], [];
    assert history[0].0 == r && history[..0] == none;
    assert Referenced(history) == {r};
    AddedOne(keys, map[], r, token);
    assert Append(keys, [], r) == [r];
    hide Append, Added;
    assert Replay(keys, none) == map[];
  }

  lemma SingleRanking(keys: Keys, r: Reference)
    ensures IsRanking(View(keys, EVERYTHING, [r]), [r], EVERYTHING, 1)
  {
    hide Keys.Of, Keys.Order, PartsLess;
    var none: seq<Reference> := [];
    assert none + [r] == [r];
    forall k ensures FirstWith(keys, EVERYTHING, [r], k) == (if keys.Of(r) == k then Some(r) else None)
                  && KeyCount(keys, EVERYTHING, [r], k) == (if keys.Of(r) == k then 1 else 0) {
      CountSnoc(keys, EVERYTHING, none, r, k);
    }
  }
}
