/**
  The sparse Merkle map: lazily built sparse nodes, openings, and what a proof commits to.
  Depth and hash are parameters; the program uses 32-byte keys and SHA-256.
  */
module SparseMerkle {
  import opened Wrappers
  import opened Digits
  import opened BitInts
  import opened Hashes
  import BitLists

  const LEAF_DOMAIN: Name := "oprow-smt-leaf-v1"
  const NODE_DOMAIN: Name := "oprow-smt-node-v1"
  const EMPTY_LEAF_DOMAIN: Name := "oprow-smt-empty-leaf-v1"
  const SMT_ALG_ID: Name := "OPROW-SMT-SHA256-V1"

  /** Shifting a number right leaves its leading bits; the last of them is its lowest bit. */
  lemma {:induction false} LeadingBits(bits: Bits, k: nat)
    requires k < |bits|
    ensures Shr(BitsToInt(bits), k) == BitsToInt(bits[..|bits| - k])
    ensures Shr(BitsToInt(bits), k) % 2 == bits[|bits| - 1 - k]
    decreases |bits|
  {
    hide FromDigits;
    var n := |bits| - 1;
    assert bits == bits[..n] + [bits[n]];
    FromDigitsSnoc(2, bits[..n], bits[n]);
    if k == 0 {
      assert bits[..n + 1] == bits;
    } else {
      LeadingBits(bits[..n], k - 1);
      assert bits[..n][..n - (k - 1)] == bits[..n + 1 - k];
    }
  }

  datatype Proof = Proof(key: Bytes, siblings: seq<Digest>, present: bool)

  datatype Opening = Opening(key: Bytes, value: Option<Bytes>, proof: Proof, rootHash: Digest)

  /** The map algorithm: a hash function and a key size. */
  datatype Smt = Smt(h: Bytes -> Digest, keyBytes: nat) {

    function Depth(): nat {
      8 * keyBytes
    }

    predicate Valid() {
      0 < Depth() < 0x10000
    }

    // ----- hashes -----

    function LeafPreimage(key: Bytes, value: Bytes): (f: Bytes) {
      Frame(Ascii(LEAF_DOMAIN), [Ascii(SMT_ALG_ID), key, h(value)])
    }

    function NodePreimage(left: Digest, right: Digest): (f: Bytes) {
      Frame(Ascii(NODE_DOMAIN), [Ascii(SMT_ALG_ID), left, right])
    }

    function EmptyPreimage(): (f: Bytes) {
      Frame(Ascii(EMPTY_LEAF_DOMAIN), [Ascii(SMT_ALG_ID), IntToBytes(Depth(), 2)])
    }

    /**
      What is hashed, byte by byte: a magic text, then each field behind its length in eight bytes:
      the domain, the algorithm id, and the left and right child, or the key and the value's
      digest, or the depth.
      */
    lemma PreimageLayouts(key: Bytes, value: Bytes, left: Digest, right: Digest)
      ensures NodePreimage(left, right) == Ascii("OProW-FRAME-v1") + IntToBytes(17, 8) + Ascii("oprow-smt-node-v1")
        + IntToBytes(19, 8) + Ascii("OPROW-SMT-SHA256-V1") + IntToBytes(32, 8) + left + IntToBytes(32, 8) + right
      ensures LeafPreimage(key, value) == Ascii("OProW-FRAME-v1") + IntToBytes(17, 8) + Ascii("oprow-smt-leaf-v1")
        + IntToBytes(19, 8) + Ascii("OPROW-SMT-SHA256-V1") + IntToBytes(|key|, 8) + key + IntToBytes(32, 8) + h(value)
      ensures EmptyPreimage() == Ascii("OProW-FRAME-v1") + IntToBytes(23, 8) + Ascii("oprow-smt-empty-leaf-v1")
        + IntToBytes(19, 8) + Ascii("OPROW-SMT-SHA256-V1") + IntToBytes(2, 8) + IntToBytes(Depth(), 2)
    {
      DomainsDiffer();
      MagicIsText();
      hide Ascii, MAGIC, IntToBytes, Frame;
      FrameOfThree(Ascii(NODE_DOMAIN), Ascii(SMT_ALG_ID), left, right);
      FrameOfThree(Ascii(LEAF_DOMAIN), Ascii(SMT_ALG_ID), key, h(value));
      FrameOfTwo(Ascii(EMPTY_LEAF_DOMAIN), Ascii(SMT_ALG_ID), IntToBytes(Depth(), 2));
    }

    function LeafHash(key: Bytes, value: Bytes): Digest {
      h(LeafPreimage(key, value))
    }

    function NodeHash(left: Digest, right: Digest): Digest {
      h(NodePreimage(left, right))
    }

    /** The hash of an empty subtree rooted at `level`. */
    function DefaultHash(level: nat): Digest
      requires level <= Depth()
      decreases Depth() - level
    {
      if level == Depth() then h(EmptyPreimage())
      else NodeHash(DefaultHash(level + 1), DefaultHash(level + 1))
    }

    // ----- the dense tree -----

    predicate Keyed(entries: map<Bytes, Bytes>) {
      forall k <- entries :: |k| == keyBytes
    }

    /** The conceptual leaf at an index: the hash of its entry, or the empty leaf. */
    function LeafAt(entries: map<Bytes, Bytes>, index: nat): Digest {
      var k := IntToBytes(index, keyBytes);
      if k in entries then LeafHash(k, entries[k]) else h(EmptyPreimage())
    }

    /** The hash of the full subtree over all `2^(depth - level)` leaves below a node. */
    function Dense(entries: map<Bytes, Bytes>, level: nat, index: nat): Digest
      requires level <= Depth()
      decreases Depth() - level
    {
      if level == Depth() then LeafAt(entries, index)
      else NodeHash(Dense(entries, level + 1, 2 * index), Dense(entries, level + 1, 2 * index + 1))
    }

    function Root(entries: map<Bytes, Bytes>): Digest {
      Dense(entries, 0, 0)
    }

    // ----- paths -----

    /** `key_int >> (depth - level)`, the index of the node on the key's path at `level`. */
    function PathIndex(key: Bytes, level: nat): (i: nat)
      requires level <= Depth()
    {
      Shr(BytesToInt(key), Depth() - level)
    }

    /** `(key_int >> (depth - 1 - level)) & 1` */
    function KeyBit(key: Bytes, level: nat): (b: nat)
      requires level < Depth()
    {
      Shr(BytesToInt(key), Depth() - 1 - level) % 2
    }

    /** One step of the hash walk, from `level + 1` up to `level`. */
    function StepUp(key: Bytes, level: nat, node: Digest, sibling: Digest): Digest
      requires level < Depth()
    {
      if KeyBit(key, level) == 0 then NodeHash(node, sibling) else NodeHash(sibling, node)
    }

    /** The hash walk from a node at `level` up to the root. */
    function WalkUp(key: Bytes, siblings: seq<Digest>, level: nat, node: Digest): Digest
      requires level <= Depth() == |siblings|
    {
      if level == 0 then node
      else WalkUp(key, siblings, level - 1, StepUp(key, level - 1, node, siblings[level - 1]))
    }

    predicate WellFormed(proof: Proof) {
      |proof.key| == keyBytes && |proof.siblings| == Depth()
    }

    function StartNode(key: Bytes, value: Option<Bytes>): Digest {
      if value.None? then DefaultHash(Depth()) else LeafHash(key, value.value)
    }

    /** A proof opens `value` under `root`. */
    predicate Accepts(proof: Proof, root: Digest, value: Option<Bytes>) {
      WellFormed(proof) && (proof.present <==> value.Some?)
      && WalkUp(proof.key, proof.siblings, Depth(), StartNode(proof.key, value)) == root
    }

    method ComputeRoot(proof: Proof, value: Option<Bytes>) returns (root: Result<Digest>)
      requires Valid() && WellFormed(proof)
      ensures root.Ok? <==> (proof.present <==> value.Some?)
      ensures root.Ok? ==> root.value == WalkUp(proof.key, proof.siblings, Depth(), StartNode(proof.key, value))
    {
      if proof.present != value.Some? {
        return Err;
      }
      var node := StartNode(proof.key, value);
      for level := Depth() downto 0
        invariant WalkUp(proof.key, proof.siblings, level, node)
          == WalkUp(proof.key, proof.siblings, Depth(), StartNode(proof.key, value))
      {
        node := StepUp(proof.key, level, node, proof.siblings[level]);
      }
      root := Ok(node);
    }

    method Verify(proof: Proof, root: Digest, value: Option<Bytes>) returns (ok: bool)
      requires Valid() && WellFormed(proof)
      ensures ok <==> Accepts(proof, root, value)
    {
      var computed := ComputeRoot(proof, value);
      ok := computed == Ok(root);
    }

    // ----- path arithmetic -----

    lemma PathStep(key: Bytes, level: nat)
      requires level < Depth()
      ensures PathIndex(key, level + 1) == 2 * PathIndex(key, level) + KeyBit(key, level)
    {
      ShrStep(BytesToInt(key), Depth() - 1 - level);
    }

    /** The path reads the key's bits from the most significant on. */
    lemma KeyBitIsBit(key: Bytes, level: nat)
      requires |key| == keyBytes && level < Depth()
      ensures KeyBit(key, level) == BytesToBits(key)[level]
    {
      hide BitsToInt, BytesToInt, BytesToBits, Shr;
      BitsDenoteBytes(key);
      LeadingBits(BytesToBits(key), Depth() - 1 - level);
    }

    /** Under an accepted proof, the root joins the first sibling on the right exactly when the key's first bit is 0. */
    lemma RootJoins(proof: Proof, root: Digest, value: Option<Bytes>)
      requires Valid() && Accepts(proof, root, value)
      ensures exists child: Digest :: root == h(if BytesToBits(proof.key)[0] == 0
        then NodePreimage(child, proof.siblings[0]) else NodePreimage(proof.siblings[0], child))
    {
      hide NodePreimage, KeyBit;
      KeyBitIsBit(proof.key, 0);
      var child := LastStep(proof.key, proof.siblings, Depth(), StartNode(proof.key, value));
    }

    lemma {:induction false} LastStep(key: Bytes, siblings: seq<Digest>, level: nat, node: Digest) returns (child: Digest)
      requires 0 < level <= Depth() == |siblings|
      ensures WalkUp(key, siblings, level, node) == StepUp(key, 0, child, siblings[0])
    {
      hide StepUp;
      if level == 1 {
        child := node;
      } else {
        child := LastStep(key, siblings, level - 1, StepUp(key, level - 1, node, siblings[level - 1]));
      }
    }

    lemma KeyIntBound(key: Bytes)
      requires |key| == keyBytes
      ensures BytesToInt(key) < Pow2(Depth())
      ensures IntToBytes(BytesToInt(key), keyBytes) == key
    {
      ValueRoundTrip(256, key);
      BitLists.PowerOfBytes(keyBytes);
    }

    lemma SiblingInRange(key: Bytes, level: nat)
      requires |key| == keyBytes && 0 < level <= Depth()
      ensures PathIndex(key, level) < Pow2(level)
      ensures Xor(PathIndex(key, level), 1) < Pow2(level)
    {
      KeyIntBound(key);
      ShrBound(BytesToInt(key), level, Depth() - level);
      Pow2Monotone(1, level);
      XorBound(PathIndex(key, level), 1, level);
    }

    lemma PathEnds(key: Bytes)
      requires |key| == keyBytes
      ensures PathIndex(key, 0) == 0
      ensures PathIndex(key, Depth()) == BytesToInt(key)
    {
      KeyIntBound(key);
      ShrBound(BytesToInt(key), 0, Depth());
    }

    // ----- openings verify -----

    /** The siblings read off the dense tree along the key's path. */
    ghost predicate DenseSiblings(entries: map<Bytes, Bytes>, key: Bytes, siblings: seq<Digest>) {
      |siblings| == Depth()
      && forall l :: 0 <= l < Depth() ==> siblings[l] == Dense(entries, l + 1, Xor(PathIndex(key, l + 1), 1))
    }

    /** Along such siblings the walk climbs the dense tree. */
    lemma {:induction false} WalkClimbsDense(entries: map<Bytes, Bytes>, key: Bytes, siblings: seq<Digest>, level: nat)
      requires |key| == keyBytes && level <= Depth() && DenseSiblings(entries, key, siblings)
      ensures WalkUp(key, siblings, level, Dense(entries, level, PathIndex(key, level))) == Root(entries)
    {
      hide NodePreimage, Xor, Shr;
      if level == 0 {
        PathEnds(key);
      } else {
        PathStep(key, level - 1);
        XorOne(PathIndex(key, level));
        WalkClimbsDense(entries, key, siblings, level - 1);
      }
    }

    /** Openings are complete: the dense siblings prove the key's value, present or absent. */
    lemma OpeningComplete(entries: map<Bytes, Bytes>, key: Bytes, siblings: seq<Digest>)
      requires |key| == keyBytes && DenseSiblings(entries, key, siblings)
      ensures Accepts(Proof(key, siblings, key in entries), Root(entries),
                      if key in entries then Some(entries[key]) else None)
    {
      KeyIntBound(key);
      PathEnds(key);
      WalkClimbsDense(entries, key, siblings, Depth());
    }

    // ----- soundness: a forged opening yields a hash collision -----

    predicate Collides(x: Bytes, y: Bytes) {
      x != y && h(x) == h(y)
    }

    lemma DomainsDiffer()
      ensures Ascii(LEAF_DOMAIN) != Ascii(EMPTY_LEAF_DOMAIN)
      ensures Ascii(NODE_DOMAIN) != Ascii(EMPTY_LEAF_DOMAIN)
      ensures Ascii(NODE_DOMAIN) != Ascii(LEAF_DOMAIN)
      ensures |Ascii(LEAF_DOMAIN)| == |Ascii(NODE_DOMAIN)| == 17 && |Ascii(EMPTY_LEAF_DOMAIN)| == 23 && |Ascii(SMT_ALG_ID)| == 19
    {
      assert LEAF_DOMAIN[10] == 'l' && NODE_DOMAIN[10] == 'n' && EMPTY_LEAF_DOMAIN[10] == 'e';
      assert |LEAF_DOMAIN| == |NODE_DOMAIN| == 17 && |EMPTY_LEAF_DOMAIN| == 23 && |SMT_ALG_ID| == 19;
      hide LEAF_DOMAIN, NODE_DOMAIN, EMPTY_LEAF_DOMAIN, SMT_ALG_ID;
    }

    lemma NodePreimageInjective(l1: Digest, r1: Digest, l2: Digest, r2: Digest)
      requires NodePreimage(l1, r1) == NodePreimage(l2, r2)
      ensures l1 == l2 && r1 == r2
    {
      DomainsDiffer();
      hide Ascii, LEAF_DOMAIN, NODE_DOMAIN, EMPTY_LEAF_DOMAIN, SMT_ALG_ID, Frame;
      var alg := Ascii(SMT_ALG_ID);
      var p1: seq<Bytes>, p2: seq<Bytes> := [alg, l1, r1], [alg, l2, r2];
      FrameInjective(Ascii(NODE_DOMAIN), p1, Ascii(NODE_DOMAIN), p2);
      assert p1[1] == p2[1] && p1[2] == p2[2];
    }

    lemma NodePreimagesDiffer(l1: Digest, r1: Digest, l2: Digest, r2: Digest)
      requires l1 != l2 || r1 != r2
      ensures NodePreimage(l1, r1) != NodePreimage(l2, r2)
    {
      if NodePreimage(l1, r1) == NodePreimage(l2, r2) { NodePreimageInjective(l1, r1, l2, r2); }
    }

    lemma LeafPreimageInjective(k1: Bytes, v1: Bytes, k2: Bytes, v2: Bytes)
      requires |k1| < U64_LIMIT && |k2| < U64_LIMIT
      requires LeafPreimage(k1, v1) == LeafPreimage(k2, v2)
      ensures k1 == k2 && h(v1) == h(v2)
    {
      DomainsDiffer();
      hide Ascii, LEAF_DOMAIN, NODE_DOMAIN, EMPTY_LEAF_DOMAIN, SMT_ALG_ID, Frame;
      var alg := Ascii(SMT_ALG_ID);
      var p1: seq<Bytes>, p2: seq<Bytes> := [alg, k1, h(v1)], [alg, k2, h(v2)];
      FrameInjective(Ascii(LEAF_DOMAIN), p1, Ascii(LEAF_DOMAIN), p2);
      assert p1[1] == p2[1] && p1[2] == p2[2];
    }

    lemma LeafIsNotEmpty(key: Bytes, value: Bytes)
      requires |key| < U64_LIMIT
      ensures LeafPreimage(key, value) != EmptyPreimage()
    {
      hide Fields, Frame, Ascii, LEAF_DOMAIN, NODE_DOMAIN, EMPTY_LEAF_DOMAIN, SMT_ALG_ID;
      DomainsDiffer();
      var alg := Ascii(SMT_ALG_ID);
      if LeafPreimage(key, value) == EmptyPreimage() {
        FrameInjective(Ascii(LEAF_DOMAIN), [alg, key, h(value)],
                       Ascii(EMPTY_LEAF_DOMAIN), [alg, IntToBytes(Depth(), 2)]);
      }
    }

    /** The preimage a proof's walk starts from. */
    function StartPreimage(key: Bytes, value: Option<Bytes>): Bytes {
      if value.None? then EmptyPreimage() else LeafPreimage(key, value.value)
    }

    /** Two different values whose start nodes have the same hash: one of two pairs collides. */
    function StartCollision(key: Bytes, v1: Option<Bytes>, v2: Option<Bytes>): (c: (Bytes, Bytes))
      requires Valid() && |key| == keyBytes
      requires v1 != v2 && StartNode(key, v1) == StartNode(key, v2)
      ensures Collides(c.0, c.1)
    {
      var x, y := StartPreimage(key, v1), StartPreimage(key, v2);
      if x != y then (x, y)
      else if v1.Some? && v2.Some? then
        LeafPreimageInjective(key, v1.value, key, v2.value);
        (v1.value, v2.value)
      else
        LeafIsNotEmpty(key, if v1.Some? then v1.value else v2.value);
        (x, y)
    }

    /** Two walks from different nodes to the same root pass through a colliding node pair. */
    function WalkCollision(key: Bytes, s1: seq<Digest>, s2: seq<Digest>, level: nat, n1: Digest, n2: Digest): (c: (Bytes, Bytes))
      requires level <= Depth() == |s1| == |s2|
      requires n1 != n2 && WalkUp(key, s1, level, n1) == WalkUp(key, s2, level, n2)
      ensures Collides(c.0, c.1)
    {
      var l := level - 1;
      var (l1, r1) := if KeyBit(key, l) == 0 then (n1, s1[l]) else (s1[l], n1);
      var (l2, r2) := if KeyBit(key, l) == 0 then (n2, s2[l]) else (s2[l], n2);
      if NodeHash(l1, r1) != NodeHash(l2, r2) then
        WalkCollision(key, s1, s2, l, NodeHash(l1, r1), NodeHash(l2, r2))
      else
        NodePreimagesDiffer(l1, r1, l2, r2);
        (NodePreimage(l1, r1), NodePreimage(l2, r2))
    }

    /**
      Soundness without assuming anything about the hash: from two accepting proofs for one key
      and one root with different values, present or absent, a collision is computed.
      */
    function OpeningCollision(p1: Proof, v1: Option<Bytes>, p2: Proof, v2: Option<Bytes>, root: Digest): (c: (Bytes, Bytes))
      requires Valid() && p1.key == p2.key && v1 != v2
      requires Accepts(p1, root, v1) && Accepts(p2, root, v2)
      ensures Collides(c.0, c.1)
    {
      var n1, n2 := StartNode(p1.key, v1), StartNode(p1.key, v2);
      if n1 == n2 then StartCollision(p1.key, v1, v2)
      else WalkCollision(p1.key, p1.siblings, p2.siblings, Depth(), n1, n2)
    }

    // ----- what the root commits to -----

    function Lookup(entries: map<Bytes, Bytes>, key: Bytes): Option<Bytes> {
      if key in entries then Some(entries[key]) else None
    }

    function SiblingsOf(entries: map<Bytes, Bytes>, key: Bytes): (s: seq<Digest>) {
      seq(Depth(), l requires 0 <= l < Depth() => Dense(entries, l + 1, Xor(PathIndex(key, l + 1), 1)))
    }

    lemma SiblingsOfDense(entries: map<Bytes, Bytes>, key: Bytes)
      ensures DenseSiblings(entries, key, SiblingsOf(entries, key))
    {
      hide Dense, Xor, PathIndex;
    }

    /** An accepted opening against a map's root that misstates the map yields a collision. */
    function ForgeryCollision(entries: map<Bytes, Bytes>, proof: Proof, value: Option<Bytes>): (c: (Bytes, Bytes))
      requires Valid() && Keyed(entries)
      requires Accepts(proof, Root(entries), value) && value != Lookup(entries, proof.key)
      ensures Collides(c.0, c.1)
    {
      var siblings := SiblingsOf(entries, proof.key);
      SiblingsOfDense(entries, proof.key);
      OpeningComplete(entries, proof.key, siblings);
      OpeningCollision(proof, value, Proof(proof.key, siblings, proof.key in entries), Lookup(entries, proof.key), Root(entries))
    }

    /** Two maps that differ at a key and have the same root yield a collision. */
    function MapCollision(a: map<Bytes, Bytes>, b: map<Bytes, Bytes>, key: Bytes): (c: (Bytes, Bytes))
      requires Valid() && Keyed(a) && Keyed(b) && |key| == keyBytes
      requires Lookup(a, key) != Lookup(b, key) && Root(a) == Root(b)
      ensures Collides(c.0, c.1)
    {
      var siblings := SiblingsOf(a, key);
      SiblingsOfDense(a, key);
      OpeningComplete(a, key, siblings);
      ForgeryCollision(b, Proof(key, siblings, key in a), Lookup(a, key))
    }

    // ----- the sparse build -----

    function Get(m: map<nat, Digest>, i: nat, default: Digest): Digest {
      if i in m then m[i] else default
    }

    /**
      One level of the sparse cache: the stored node, or else the level default, is the dense
      hash at every index, and above the leaves no default-valued node is stored.
      */
    ghost predicate LevelIsDense(m: map<nat, Digest>, entries: map<Bytes, Bytes>, level: nat)
      requires level <= Depth()
    {
      && (forall i <- m :: i < Pow2(level))
      && (forall i :: 0 <= i < Pow2(level) ==> Get(m, i, DefaultHash(level)) == Dense(entries, level, i))
      && (level < Depth() ==> forall i <- m :: m[i] != DefaultHash(level))
    }

    ghost predicate CacheIsDense(nodes: map<nat, map<nat, Digest>>, entries: map<Bytes, Bytes>) {
      forall l :: 0 <= l <= Depth() ==> l in nodes && LevelIsDense(nodes[l], entries, l)
    }

    /** The index of a key's leaf, and the key of an index's leaf. */
    lemma LeafOfKey(entries: map<Bytes, Bytes>, key: Bytes)
      requires Keyed(entries) && key in entries
      ensures BytesToInt(key) < Pow2(Depth()) && IntToBytes(BytesToInt(key), keyBytes) == key
      ensures LeafAt(entries, BytesToInt(key)) == LeafHash(key, entries[key])
    {
      KeyIntBound(key);
    }

    lemma LeafAtIndex(entries: map<Bytes, Bytes>, i: nat)
      requires Keyed(entries) && i < Pow2(Depth())
      ensures BytesToInt(IntToBytes(i, keyBytes)) == i
      ensures IntToBytes(i, keyBytes) !in entries ==> LeafAt(entries, i) == DefaultHash(Depth())
      ensures Dense(entries, Depth(), i) == LeafAt(entries, i)
    {
      BitLists.PowerOfBytes(keyBytes);
      DigitsRoundTrip(256, i, keyBytes);
    }

    /** Leaves stored for exactly the keys that occur. */
    ghost predicate StoresLeaves(leaves: map<nat, Digest>, entries: map<Bytes, Bytes>, done: set<Bytes>) {
      && (forall k <- done :: BytesToInt(k) in leaves)
      && (forall i <- leaves :: i < Pow2(Depth()) && IntToBytes(i, keyBytes) in entries && leaves[i] == LeafAt(entries, i))
    }

    lemma StoredLeavesAreDense(leaves: map<nat, Digest>, entries: map<Bytes, Bytes>)
      requires Keyed(entries) && StoresLeaves(leaves, entries, entries.Keys)
      ensures LevelIsDense(leaves, entries, Depth())
    {
      hide LeafAt, Dense, DefaultHash, IntToBytes, BytesToInt;
      forall i | 0 <= i < Pow2(Depth())
        ensures Get(leaves, i, DefaultHash(Depth())) == Dense(entries, Depth(), i)
      {
        LeafAtIndex(entries, i);
      }
    }

    method BuildLeaves(entries: map<Bytes, Bytes>) returns (leaves: map<nat, Digest>)
      requires Valid() && Keyed(entries)
      ensures LevelIsDense(leaves, entries, Depth())
    {
      hide LeafAt, LeafHash, IntToBytes, BytesToInt, Pow2, LevelIsDense;
      leaves := map[];
      var todo := entries.Keys;
      while todo != {}
        invariant todo <= entries.Keys && StoresLeaves(leaves, entries, entries.Keys - todo)
      {
        var key :| key in todo;
        LeafOfKey(entries, key);
        leaves := leaves[BytesToInt(key) := LeafHash(key, entries[key])];
        todo := todo - {key};
      }
      assert entries.Keys - todo == entries.Keys;
      StoredLeavesAreDense(leaves, entries);
    }

    /** Below an unstored parent both children are empty, so the parent is the default. */
    lemma ParentOf(children: map<nat, Digest>, entries: map<Bytes, Bytes>, level: nat, i: nat)
      requires level < Depth() && LevelIsDense(children, entries, level + 1) && i < Pow2(level)
      ensures Dense(entries, level, i)
        == NodeHash(Get(children, 2 * i, DefaultHash(level + 1)), Get(children, 2 * i + 1, DefaultHash(level + 1)))
      ensures 2 * i !in children && 2 * i + 1 !in children ==> Dense(entries, level, i) == DefaultHash(level)
    {
    }

    method BuildParents(children: map<nat, Digest>, ghost entries: map<Bytes, Bytes>, level: nat)
      returns (parents: map<nat, Digest>)
      requires Valid() && level < Depth() && LevelIsDense(children, entries, level + 1)
      ensures LevelIsDense(parents, entries, level)
    {
      var parentIndices := set i <- children :: i / 2;
      var childDefault, parentDefault := DefaultHash(level + 1), DefaultHash(level);
      parents := map[];
      var todo := parentIndices;
      while todo != {}
        invariant todo <= parentIndices
        invariant forall i <- parents :: i < Pow2(level) && parents[i] != parentDefault && parents[i] == Dense(entries, level, i)
        invariant forall i <- parentIndices :: i !in todo ==> Get(parents, i, parentDefault) == Dense(entries, level, i)
      {
        var p :| p in todo;
        ParentOf(children, entries, level, p);
        var hash := NodeHash(Get(children, 2 * p, childDefault), Get(children, 2 * p + 1, childDefault));
        if hash != parentDefault {
          parents := parents[p := hash];
        }
        todo := todo - {p};
      }
      forall i | 0 <= i < Pow2(level) ensures Get(parents, i, parentDefault) == Dense(entries, level, i) {
        ParentOf(children, entries, level, i);
        if i !in parentIndices {
          assert 2 * i / 2 == i && (2 * i + 1) / 2 == i;
        }
      }
    }
  }

  lemma XorOne(i: nat)
    ensures Xor(i, 1) == if i % 2 == 0 then i + 1 else i - 1
  {
    XorZero(i / 2);
  }

  /** The mutable map with its lazily rebuilt node cache. */
  class SparseMerkleMap {
    const smt: Smt
    var entries: map<Bytes, Bytes>
    var nodes: Option<map<nat, map<nat, Digest>>>
    var root: Option<Digest>

    /** Whatever is cached is what a fresh build from the current entries gives. */
    ghost predicate Valid()
      reads this
    {
      && smt.Valid() && smt.Keyed(entries)
      && (nodes.Some? ==> smt.CacheIsDense(nodes.value, entries))
      && (root.Some? ==> root.value == smt.Root(entries))
    }

    constructor (smt: Smt, entries: map<Bytes, Bytes>)
      requires smt.Valid() && smt.Keyed(entries)
      ensures Valid() && this.smt == smt && this.entries == entries
    {
      this.smt := smt;
      this.entries := entries;
      nodes, root := None, None;
    }

    method Set(key: Bytes, value: Bytes)
      requires Valid() && |key| == smt.keyBytes
      modifies this
      ensures Valid() && entries == old(entries)[key := value]
    {
      entries := entries[key := value];
      MarkDirty();
    }

    method Delete(key: Bytes)
      requires Valid()
      modifies this
      ensures Valid() && entries == old(entries) - {key}
    {
      if key in entries {
        entries := entries - {key};
        MarkDirty();
      }
    }

    method MarkDirty()
      modifies this`nodes, this`root
      ensures nodes == None && root == None
    {
      nodes, root := None, None;
    }

    method EnsureBuilt()
      requires Valid()
      modifies this`nodes, this`root
      ensures Valid() && nodes.Some? && root.Some?
    {
      hide Smt.Dense, Smt.DefaultHash;
      if nodes.Some? && root.Some? {
        return;
      }
      var leaves := smt.BuildLeaves(entries);
      var built: map<nat, map<nat, Digest>> := map[smt.Depth() := leaves];
      for level := smt.Depth() downto 0
        invariant forall l :: level <= l <= smt.Depth() ==> l in built && smt.LevelIsDense(built[l], entries, l)
      {
        var parents := smt.BuildParents(built[level + 1], entries, level);
        built := built[level := parents];
      }
      nodes := Some(built);
      assert Pow2(0) == 1;
      assert smt.Get(built[0], 0, smt.DefaultHash(0)) == smt.Dense(entries, 0, 0);
      root := Some(smt.Get(built[0], 0, smt.DefaultHash(0)));
    }

    /** The root is a function of the entries, whatever calls led to them. */
    method RootHash() returns (r: Digest)
      requires Valid()
      modifies this`nodes, this`root
      ensures Valid() && r == smt.Root(entries)
    {
      EnsureBuilt();
      r := root.value;
    }

    /** The opening of any key, present or absent, states the map's value and verifies. */
    method Open(key: Bytes) returns (opening: Opening)
      requires Valid() && |key| == smt.keyBytes
      modifies this`nodes, this`root
      ensures Valid()
      ensures opening.key == key == opening.proof.key && opening.value == smt.Lookup(entries, key)
      ensures opening.rootHash == smt.Root(entries)
      ensures smt.Accepts(opening.proof, opening.rootHash, opening.value)
    {
      hide Smt.Dense, Smt.DefaultHash, Smt.NodePreimage, Smt.LeafPreimage, Smt.EmptyPreimage, Xor, Pow2, FromDigits,
        ToDigits, Shr;
      EnsureBuilt();
      var keyInt := BytesToInt(key);
      var depth := smt.Depth();
      var siblings: seq<Digest> := [];
      for level := 0 to depth
        modifies {}
        invariant |siblings| == level
        invariant forall l :: 0 <= l < level ==> siblings[l] == smt.Dense(entries, l + 1, Xor(smt.PathIndex(key, l + 1), 1))
      {
        var childIndex := Shr(keyInt, depth - (level + 1));
        var siblingIndex := Xor(childIndex, 1);
        smt.SiblingInRange(key, level + 1);
        var sibling := smt.Get(nodes.value[level + 1], siblingIndex, smt.DefaultHash(level + 1));
        siblings := siblings + [sibling];
      }
      var value := if key in entries then Some(entries[key]) else None;
      smt.OpeningComplete(entries, key, siblings);
      opening := Opening(key, value, Proof(key, siblings, value.Some?), root.value);
    }

    method VerifyOpening(opening: Opening) returns (ok: bool)
      requires Valid() && smt.WellFormed(opening.proof)
      modifies this`nodes, this`root
      ensures Valid()
      ensures ok <==> (opening.proof.key == opening.key && opening.rootHash == smt.Root(entries)
                       && smt.Accepts(opening.proof, opening.rootHash, opening.value))
    {
      var accepted := smt.Verify(opening.proof, opening.rootHash, opening.value);
      var current := RootHash();
      ok := opening.proof.key == opening.key && accepted && opening.rootHash == current;
    }
  }
}
