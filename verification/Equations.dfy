/**
  Rateless locator recovery: deterministic sparse equations about a key, deduplication of the
  recovered ones, and the solve.  The width is a parameter; the FULL160 profile has 20 key bytes.
  */
module Equations {
  import opened Wrappers
  import opened Digits
  import opened BitInts
  import BitLists
  import LA = LinearAlgebra
  import Gf2

  /**
    `chunk(id, k)` is the `k`-th 16-bit value of the hash stream of equation `id`; the hash
    itself is foreign.
    */
  datatype Profile = Profile(keyBytes: nat, weight: nat, maxEquationId: nat, chunk: (nat, nat) -> nat) {

    function Width(): nat {
      8 * keyBytes
    }

    /** The checks made when a profile is built, and the stream's promise to be long enough. */
    ghost predicate Valid() {
      && 1 <= weight <= Width() && maxEquationId > 0
      && forall id :: 0 <= id <= maxEquationId ==> Yields(this, id)
    }
  }

  datatype RatelessEquation = RatelessEquation(equationId: nat, mask: nat, rhs: bit, confidence: real)

  // ----- sparse masks -----

  /** The positions drawn by the first `n` chunks of the stream. */
  function Positions(p: Profile, id: nat, n: nat): (s: set<nat>)
    requires p.keyBytes > 0
    ensures forall i <- s :: i < p.Width()
  {
    if n == 0 then {} else Positions(p, id, n - 1) + {p.chunk(id, n - 1) % p.Width()}
  }

  /** They are the chunks modulo the width. */
  lemma {:induction false} PositionsDrawn(p: Profile, id: nat, n: nat)
    requires p.keyBytes > 0
    ensures Positions(p, id, n) == set k: nat | k < n :: p.chunk(id, k) % p.Width()
  {
    if n > 0 { PositionsDrawn(p, id, n - 1); }
  }

  ghost predicate Yields(p: Profile, id: nat) {
    p.keyBytes > 0 && exists n: nat :: |Positions(p, id, n)| >= p.weight
  }

  /** The sparse row has exactly the positions of the shortest sufficient stream prefix. */
  ghost predicate IsSparseMask(p: Profile, id: nat, mask: nat)
    requires p.keyBytes > 0
  {
    mask < Pow2(p.Width()) && exists n: nat :: Draws(p, id, n) && HasBits(mask, Positions(p, id, n))
  }

  ghost predicate HasBits(mask: nat, s: set<nat>) {
    forall i {:trigger Bit(mask, i)} :: Bit(mask, i) <==> i in s
  }

  /** `n` is the first prefix length with `weight` distinct positions. */
  ghost predicate Draws(p: Profile, id: nat, n: nat)
    requires p.keyBytes > 0
  {
    |Positions(p, id, n)| == p.weight && forall m :: 0 <= m < n ==> |Positions(p, id, m)| < p.weight
  }

  /** The stream determines the mask. */
  lemma SparseMaskUnique(p: Profile, id: nat, a: nat, b: nat)
    requires p.keyBytes > 0 && IsSparseMask(p, id, a) && IsSparseMask(p, id, b)
    ensures a == b
  {
    var m: nat :| Draws(p, id, m) && HasBits(a, Positions(p, id, m));
    var n: nat :| Draws(p, id, n) && HasBits(b, Positions(p, id, n));
    assert n <= m && m <= n;
    forall i | 0 <= i < p.Width() ensures Bit(a, i) <==> Bit(b, i) {}
    SameBitsEqual(a, b, p.Width());
  }

  lemma {:induction false} PositionsGrow(p: Profile, id: nat, m: nat, n: nat)
    requires p.keyBytes > 0 && m <= n
    ensures Positions(p, id, m) <= Positions(p, id, n)
    ensures |Positions(p, id, m)| <= |Positions(p, id, n)|
  {
    if m < n {
      PositionsGrow(p, id, m, n - 1);
      LA.SubsetSize(Positions(p, id, n - 1), Positions(p, id, n));
    }
  }

  method MaskOfPositions(positions: set<nat>, width: nat) returns (mask: nat)
    requires forall i <- positions :: i < width
    ensures mask < Pow2(width) && HasBits(mask, positions)
  {
    mask := 0;
    var todo := positions;
    forall i ensures !Bit(0, i) { BitOfZero(i); }
    while todo != {}
      invariant todo <= positions && mask < Pow2(width)
      invariant HasBits(mask, positions - todo)
    {
      var pos :| pos in todo;
      Pow2Monotone(pos, width);
      OrBound(mask, Pow2(pos), width);
      forall i ensures Bit(Or(mask, Pow2(pos)), i) <==> (Bit(mask, i) || i == pos) {
        OrBit(mask, Pow2(pos), i);
        BitOfPow2(pos, i);
      }
      mask := Or(mask, Pow2(pos));
      todo := todo - {pos};
    }
  }

  /** Derive the sparse row of an equation; ids beyond the profile's range raise. */
  method SparseMaskForEquation(p: Profile, id: nat) returns (mask: Result<nat>)
    requires p.Valid()
    ensures mask.Ok? <==> id <= p.maxEquationId
    ensures mask.Ok? ==> IsSparseMask(p, id, mask.value)
  {
    hide HasBits;
    if id > p.maxEquationId {
      return Err;
    }
    assert Yields(p, id);
    ghost var bound: nat :| |Positions(p, id, bound)| >= p.weight;
    var positions: set<nat> := {};
    var k := 0;
    while |positions| < p.weight
      invariant positions == Positions(p, id, k) && |positions| <= p.weight
      invariant forall m :: 0 <= m < k ==> |Positions(p, id, m)| < p.weight
      decreases bound - k
    {
      if bound <= k { PositionsGrow(p, id, bound, k); }
      positions := positions + {p.chunk(id, k) % p.Width()};
      k := k + 1;
    }
    var bits := MaskOfPositions(positions, p.Width());
    assert Draws(p, id, k) && HasBits(bits, Positions(p, id, k));
    mask := Ok(bits);
  }

  // ----- equations about a key -----

  /** `eq` is what the profile generates for the key: the id's row and its inner product. */
  ghost predicate Honest(p: Profile, key: nat, eq: RatelessEquation)
    requires p.keyBytes > 0
  {
    IsSparseMask(p, eq.equationId, eq.mask) && (eq.rhs == 1 <==> Dot(eq.mask, key))
  }

  /** A key of `n` bytes fits `8 * n` bits. */
  lemma KeyFits(key: Bytes)
    ensures BytesToInt(key) < Pow2(8 * |key|)
  {
    ValueRoundTrip(256, key);
    BitLists.PowerOfBytes(|key|);
  }

  /** Raises for an id beyond the profile, a key that does not fit, and a negative confidence. */
  method EquationForKey(p: Profile, id: nat, key: nat, confidence: real) returns (eq: Result<RatelessEquation>)
    requires p.Valid()
    ensures eq.Ok? <==> id <= p.maxEquationId && key < Pow2(p.Width()) && confidence >= 0.0
    ensures eq.Ok? ==> Honest(p, key, eq.value) && eq.value.equationId == id && eq.value.confidence == confidence
  {
    var mask :- SparseMaskForEquation(p, id);
    if key >= Pow2(p.Width()) || confidence < 0.0 {
      return Err;
    }
    eq := Ok(RatelessEquation(id, mask, if Parity(And(mask, key)) then 1 else 0, confidence));
  }

  // ----- deduplication -----

  /** `eqs[k]` is the earliest record of its id with the highest confidence. */
  predicate Earliest(eqs: seq<RatelessEquation>, k: nat) {
    k < |eqs|
    && (forall j :: 0 <= j < |eqs| && eqs[j].equationId == eqs[k].equationId ==> eqs[j].confidence <= eqs[k].confidence)
    && (forall j :: 0 <= j < k && eqs[j].equationId == eqs[k].equationId ==> eqs[j].confidence < eqs[k].confidence)
  }

  function Ids(eqs: seq<RatelessEquation>): (ids: set<nat>) {
    set i | 0 <= i < |eqs| :: eqs[i].equationId
  }

  /** `x` is the record kept for its id. */
  ghost predicate Best(eqs: seq<RatelessEquation>, x: RatelessEquation) {
    exists k :: 0 <= k < |eqs| && Earliest(eqs, k) && eqs[k] == x
  }

  predicate AscendingIds(out: seq<RatelessEquation>) {
    forall i, j :: 0 <= i < j < |out| ==> out[i].equationId < out[j].equationId
  }

  /** One earliest highest-confidence record per id, in increasing id order. */
  ghost predicate Deduplicated(eqs: seq<RatelessEquation>, out: seq<RatelessEquation>) {
    && Ids(out) == Ids(eqs)
    && AscendingIds(out)
    && (forall i :: 0 <= i < |out| ==> Best(eqs, out[i]))
  }

  lemma {:induction false} AscendingIdsUnique(a: seq<RatelessEquation>, b: seq<RatelessEquation>)
    requires AscendingIds(a) && AscendingIds(b) && forall x :: x in a <==> x in b
    ensures a == b
  {
    assert a != [] ==> a[0] in a;
    assert b != [] ==> b[0] in b;
    if a != [] && b != [] {
      var x, y := a[|a| - 1], b[|b| - 1];
      assert x in b && y in a;
      assert x == y;
      var a', b' := a[..|a| - 1], b[..|b| - 1];
      assert a == a' + [x] && b == b' + [x];
      LastApart(a);
      LastApart(b);
      forall z ensures z in a' <==> z in b' { assert z in a <==> z in b; }
      AscendingIdsUnique(a', b');
    }
  }

  lemma LastApart(a: seq<RatelessEquation>)
    requires AscendingIds(a) && a != []
    ensures forall z :: z in a[..|a| - 1] <==> z in a && z != a[|a| - 1]
  {
    assert a == a[..|a| - 1] + [a[|a| - 1]];
  }

  lemma {:induction false} KeptIn(eqs: seq<RatelessEquation>, out: seq<RatelessEquation>)
    requires Deduplicated(eqs, out)
    ensures forall x :: x in out <==> Best(eqs, x)
  {
    hide Earliest;
    forall x | Best(eqs, x) ensures x in out {
      var k :| 0 <= k < |eqs| && Earliest(eqs, k) && eqs[k] == x;
      IdIn(eqs, k);
      var i :| 0 <= i < |out| && out[i].equationId == x.equationId;
      var l :| 0 <= l < |eqs| && Earliest(eqs, l) && eqs[l] == out[i];
      OneEarliest(eqs, k, l);
    }
  }

  lemma OneEarliest(eqs: seq<RatelessEquation>, k: nat, l: nat)
    requires Earliest(eqs, k) && Earliest(eqs, l) && eqs[k].equationId == eqs[l].equationId
    ensures k == l
  {
  }

  /** A list has exactly one deduplicated form. */
  lemma DeduplicatedUnique(eqs: seq<RatelessEquation>, a: seq<RatelessEquation>, b: seq<RatelessEquation>)
    requires Deduplicated(eqs, a) && Deduplicated(eqs, b)
    ensures a == b
  {
    hide Best, Ids;
    KeptIn(eqs, a);
    KeptIn(eqs, b);
    AscendingIdsUnique(a, b);
  }

  /** `best` maps every id seen to its record, found at position `at`. */
  ghost predicate KeepsBest(eqs: seq<RatelessEquation>, best: map<nat, RatelessEquation>, at: map<nat, nat>) {
    && best.Keys == at.Keys == Ids(eqs)
    && forall id <- best :: Earliest(eqs, at[id]) && best[id] == eqs[at[id]] && best[id].equationId == id
  }

  lemma KeepBestStep(eqs: seq<RatelessEquation>, eq: RatelessEquation, best: map<nat, RatelessEquation>, at: map<nat, nat>)
    requires KeepsBest(eqs, best, at)
    ensures if eq.equationId !in best || eq.confidence > best[eq.equationId].confidence
      then KeepsBest(eqs + [eq], best[eq.equationId := eq], at[eq.equationId := |eqs|])
      else KeepsBest(eqs + [eq], best, at)
  {
    hide Ids;
    var all := eqs + [eq];
    IdsSnoc(eqs, eq);
    forall j | 0 <= j < |eqs| ensures all[j] == eqs[j] && eqs[j].equationId in Ids(eqs) { IdIn(eqs, j); }
    assert all[|eqs|] == eq;
  }

  lemma IdIn(eqs: seq<RatelessEquation>, j: nat)
    requires j < |eqs|
    ensures eqs[j].equationId in Ids(eqs)
  {
  }

  method DeduplicateEquations(eqs: seq<RatelessEquation>) returns (out: seq<RatelessEquation>)
    ensures Deduplicated(eqs, out)
  {
    hide Earliest, Ids, Deduplicated;
    var best: map<nat, RatelessEquation> := map[];
    ghost var at: map<nat, nat> := map[];
    NoIds();
    for n := 0 to |eqs|
      invariant KeepsBest(eqs[..n], best, at)
    {
      var eq := eqs[n];
      assert eqs[..n + 1] == eqs[..n] + [eq];
      KeepBestStep(eqs[..n], eq, best, at);
      if eq.equationId !in best || eq.confidence > best[eq.equationId].confidence {
        best := best[eq.equationId := eq];
        at := at[eq.equationId := n];
      }
    }
    assert eqs[..|eqs|] == eqs;
    out := SortedValues(best);
    BestIsDeduplicated(eqs, best, at, out);
  }

  /** The kept records in id order are the deduplicated list. */
  lemma BestIsDeduplicated(eqs: seq<RatelessEquation>, best: map<nat, RatelessEquation>, at: map<nat, nat>, out: seq<RatelessEquation>)
    requires KeepsBest(eqs, best, at) && Ids(out) == best.Keys
    requires AscendingIds(out)
    requires forall i :: 0 <= i < |out| ==> out[i].equationId in best && out[i] == best[out[i].equationId]
    ensures Deduplicated(eqs, out)
  {
    hide Ids, Earliest;
    EarliestInRange(eqs);
    forall i | 0 <= i < |out| ensures Best(eqs, out[i]) {
      var k := at[out[i].equationId];
      assert Earliest(eqs, k) && out[i] == eqs[k];
    }
  }

  lemma NoIds()
    ensures Ids([]) == {}
  {
  }

  lemma EarliestInRange(eqs: seq<RatelessEquation>)
    ensures forall k: nat :: Earliest(eqs, k) ==> k < |eqs|
  {
  }

  /** `[best[k] for k in sorted(best)]` */
  method SortedValues(best: map<nat, RatelessEquation>) returns (out: seq<RatelessEquation>)
    requires forall id <- best :: best[id].equationId == id
    ensures Ids(out) == best.Keys
    ensures forall i :: 0 <= i < |out| ==> out[i].equationId in best && out[i] == best[out[i].equationId]
    ensures AscendingIds(out)
  {
    hide Ids;
    out := [];
    var todo := best.Keys;
    NoIds();
    while todo != {}
      invariant todo <= best.Keys && Ids(out) == best.Keys - todo
      invariant forall i :: 0 <= i < |out| ==> out[i].equationId in best && out[i] == best[out[i].equationId]
      invariant forall i :: 0 <= i < |out| ==> forall id <- todo :: out[i].equationId < id
      invariant AscendingIds(out)
    {
      ghost var least := Least(todo);
      var id :| id in todo && forall k <- todo :: id <= k;
      IdsSnoc(out, best[id]);
      out := out + [best[id]];
      todo := todo - {id};
    }
  }

  lemma IdsSnoc(eqs: seq<RatelessEquation>, eq: RatelessEquation)
    ensures Ids(eqs + [eq]) == Ids(eqs) + {eq.equationId}
  {
    var all := eqs + [eq];
    assert all[|eqs|] == eq;
    forall id | id in Ids(eqs) ensures id in Ids(all) {
      var i :| 0 <= i < |eqs| && eqs[i].equationId == id;
      assert all[i].equationId == id;
    }
  }

  lemma {:induction false} Least(s: set<nat>) returns (least: nat)
    requires s != {}
    ensures least in s && forall k <- s :: least <= k
  {
    var x :| x in s;
    var rest := s - {x};
    least := x;
    if rest != {} {
      var m := Least(rest);
      if m < x { least := m; }
      forall k | k in s ensures least <= k { assert k == x || k in rest; }
    } else {
      assert s == {x};
    }
  }

  // ----- recovery -----

  datatype DecodeResult = DecodeResult(
    equationsSeen: nat, uniqueEquations: nat, report: Gf2.SolveResult, recoveredKey: Option<Bytes>)

  function Pairs(eqs: seq<RatelessEquation>): (pairs: seq<LA.Equation>)
    ensures |pairs| == |eqs|
    ensures forall i :: 0 <= i < |eqs| ==> pairs[i] == LA.Equation(eqs[i].mask, eqs[i].rhs)
  {
    seq(|eqs|, i requires 0 <= i < |eqs| => LA.Equation(eqs[i].mask, eqs[i].rhs))
  }

  function RowsOf(eqs: seq<RatelessEquation>): (rows: seq<nat>)
    ensures |rows| == |eqs| && forall i :: 0 <= i < |eqs| ==> rows[i] == eqs[i].mask
  {
    seq(|eqs|, i requires 0 <= i < |eqs| => eqs[i].mask)
  }

  ghost predicate AllHonest(p: Profile, key: nat, eqs: seq<RatelessEquation>)
    requires p.keyBytes > 0
  {
    forall i :: 0 <= i < |eqs| ==> Honest(p, key, eqs[i])
  }

  /** The recovery outcome for equations that all speak of `key`. */
  ghost predicate RecoversExactly(r: DecodeResult, p: Profile, key: Bytes, eqs: seq<RatelessEquation>) {
    && r.report.consistent
    && r.report.rank == LA.Rank(RowsOf(eqs))
    && r.recoveredKey == if LA.Rank(RowsOf(eqs)) == p.Width() then Some(key) else None
  }

  /** `key` is the one solution of the deduplicated equations. */
  ghost predicate OnlySolution(p: Profile, eqs: seq<RatelessEquation>, key: nat) {
    exists out :: Deduplicated(eqs, out) && LA.Solutions(Pairs(out), p.Width()) == {key}
  }

  /** Deduplication loses no row: equal ids of honest equations mean equal equations. */
  lemma HonestRowsKept(p: Profile, key: nat, eqs: seq<RatelessEquation>, out: seq<RatelessEquation>)
    requires p.keyBytes > 0 && AllHonest(p, key, eqs) && Deduplicated(eqs, out)
    ensures AllHonest(p, key, out)
    ensures forall m :: m in RowsOf(eqs) <==> m in RowsOf(out)
  {
    forall i | 0 <= i < |out| ensures Honest(p, key, out[i]) && out[i].mask in RowsOf(eqs) {
      var k :| 0 <= k < |eqs| && Earliest(eqs, k) && out[i] == eqs[k];
      assert RowsOf(eqs)[k] == out[i].mask;
    }
    forall i | 0 <= i < |eqs| ensures eqs[i].mask in RowsOf(out) {
      assert eqs[i].equationId in Ids(out);
      var j :| 0 <= j < |out| && out[j].equationId == eqs[i].equationId;
      SparseMaskUnique(p, eqs[i].equationId, eqs[i].mask, out[j].mask);
      assert RowsOf(out)[j] == eqs[i].mask;
    }
  }

  /** The key solves every honest system, and is the only solution exactly at full rank. */
  lemma HonestSystem(p: Profile, key: nat, eqs: seq<RatelessEquation>)
    requires p.keyBytes > 0 && AllHonest(p, key, eqs) && key < Pow2(p.Width())
    ensures LA.ValidRows(Pairs(eqs), p.Width())
    ensures LA.Masks(Pairs(eqs)) == RowsOf(eqs)
    ensures key in LA.Solutions(Pairs(eqs), p.Width())
    ensures LA.Rank(RowsOf(eqs)) == p.Width() <==> LA.Solutions(Pairs(eqs), p.Width()) == {key}
  {
    forall e | e in Pairs(eqs) ensures LA.ValidRow(e, p.Width()) && LA.Satisfies(e, key) {
      var i :| 0 <= i < |eqs| && Pairs(eqs)[i] == e;
      assert Honest(p, key, eqs[i]);
    }
    assert key in LA.Solutions(Pairs(eqs), p.Width());
    LA.UniqueIffFullRank(Pairs(eqs), p.Width());
    if |LA.Solutions(Pairs(eqs), p.Width())| == 1 {
      Gf2.Singleton(LA.Solutions(Pairs(eqs), p.Width()), key);
    }
  }

  /**
    Adding honest equations never loses the key: whatever system determines it, every larger
    one does.
    */
  lemma MoreEquationsKeepKey(p: Profile, key: nat, eqs: seq<RatelessEquation>, more: seq<RatelessEquation>)
    requires p.keyBytes > 0 && AllHonest(p, key, more) && key < Pow2(p.Width())
    requires forall m <- RowsOf(eqs) :: m in RowsOf(more)
    requires LA.Rank(RowsOf(eqs)) == p.Width()
    ensures LA.Rank(RowsOf(more)) == p.Width()
    ensures LA.Solutions(Pairs(more), p.Width()) == {key}
  {
    HonestSystem(p, key, more);
    LA.BoundedMasks(Pairs(more), p.Width());
    LA.RankAtMostWidth(RowsOf(more), p.Width());
    LA.RankOfMoreRows(RowsOf(eqs), RowsOf(more));
  }

  /** Solving the records kept raises: one does not fit the width, and those before it do not contradict each other. */
  ghost predicate Malformed(p: Profile, out: seq<RatelessEquation>) {
    exists k :: 0 <= k < |out| && Gf2.GoodPrefix(Pairs(out), k, p.Width()) && !LA.ValidRow(Pairs(out)[k], p.Width())
  }

  /** The outcome is the solver's report on the records kept, and the key exactly when they determine one. */
  ghost predicate Recovers(r: DecodeResult, p: Profile, out: seq<RatelessEquation>) {
    && r.uniqueEquations == |out| && r.report.width == p.Width() && Gf2.Reports(r.report, Pairs(out), p.Width())
    && r.report.equationsSeen == r.report.rank + r.report.redundant + r.report.inconsistent
    && (r.recoveredKey.Some? ==> |r.recoveredKey.value| == p.keyBytes)
    && forall key: Bytes :: |key| == p.keyBytes ==> (r.recoveredKey == Some(key) <==> LA.Solutions(Pairs(out), p.Width()) == {BytesToInt(key)})
  }

  /** Of a result that reports on the records kept, the key is the one solution, in bytes. */
  lemma KeyIffOnly(p: Profile, out: seq<RatelessEquation>, report: Gf2.SolveResult, key: Bytes)
    requires report.width == p.Width() && Gf2.Reports(report, Pairs(out), p.Width()) && |key| == p.keyBytes
    ensures BytesToInt(key) < Pow2(p.Width()) && IntToBytes(BytesToInt(key), p.keyBytes) == key
    ensures report.Solved() && report.solution.value == BytesToInt(key) <==> LA.Solutions(Pairs(out), p.Width()) == {BytesToInt(key)}
  {
    assert IntToBytes(BytesToInt(key), p.keyBytes) == key by { ValueRoundTrip(256, key); }
    hide BytesToInt, Pow2, LA.Rank, LA.Solutions, LA.Solvable, LA.ValidRows, Gf2.ReportsConflict;
    KeyFits(key);
    if !report.consistent {
      Gf2.ConflictMeansNone(report, Pairs(out), p.Width());
    } else {
      SolvedIff(report, Pairs(out), p.Width(), BytesToInt(key));
    }
  }

  lemma SolvedIff(report: Gf2.SolveResult, es: seq<LA.Equation>, width: nat, n: nat)
    requires report.width == width && Gf2.ReportsSolved(report, es, width)
    ensures report.Solved() && report.solution.value == n <==> LA.Solutions(es, width) == {n}
  {
    hide LA.Rank, LA.Solutions, LA.Solvable, LA.ValidRows, Pow2;
    if report.Solved() && LA.Solutions(es, width) == {n} {
      assert report.solution.value in {n};
    }
  }

  /**
    Recover a key from equations.  Whatever the list, the records kept are solved, and a key is
    returned exactly when it is their one solution.
    */
  method SolveManifestKeyFromEquations(p: Profile, eqs: seq<RatelessEquation>) returns (r: Result<DecodeResult>)
    requires p.keyBytes > 0
    ensures (forall i :: 0 <= i < |eqs| ==> eqs[i].mask < Pow2(p.Width())) ==> r.Ok?
    ensures r.Ok? ==> r.value.equationsSeen == |eqs| && r.value.uniqueEquations == |Ids(eqs)|
    ensures exists out :: Deduplicated(eqs, out) && (r.Err? <==> Malformed(p, out)) && (r.Ok? ==> Recovers(r.value, p, out))
    ensures r.Ok? && r.value.recoveredKey.Some? ==> |r.value.recoveredKey.value| == p.keyBytes
    ensures r.Ok? ==> forall key: Bytes :: |key| == p.keyBytes ==> (r.value.recoveredKey == Some(key) <==> OnlySolution(p, eqs, BytesToInt(key)))
    ensures forall key: Bytes :: (|key| == p.keyBytes && AllHonest(p, BytesToInt(key), eqs)
                                  ==> r.Ok? && RecoversExactly(r.value, p, key, eqs))
  {
    var unique := DeduplicateEquations(eqs);
    DistinctIds(unique);
    var result := Gf2.SolveGf2(Pairs(unique), p.Width());
    forall key: Bytes | |key| == p.keyBytes && AllHonest(p, BytesToInt(key), eqs)
      ensures result.Ok? && result.value.consistent
      ensures BytesToInt(key) < Pow2(p.Width()) && IntToBytes(BytesToInt(key), p.keyBytes) == key
      ensures result.value.rank == LA.Rank(RowsOf(eqs))
      ensures LA.Rank(RowsOf(eqs)) == p.Width() <==> result.value.solution == Some(BytesToInt(key))
    {
      HonestReport(p, key, eqs, unique, result);
    }
    if result.Err? {
      if forall i :: 0 <= i < |eqs| ==> eqs[i].mask < Pow2(p.Width()) { RowsFromInput(p, eqs, unique); }
      return Err;
    }
    var report := result.value;
    forall key: Bytes | |key| == p.keyBytes
      ensures IntToBytes(BytesToInt(key), p.keyBytes) == key
      ensures report.Solved() && report.solution.value == BytesToInt(key) <==> LA.Solutions(Pairs(unique), p.Width()) == {BytesToInt(key)}
    {
      KeyIffOnly(p, unique, report, key);
    }
    var recovered: Option<Bytes> := None;
    if report.Solved() {
      recovered := Some(IntToBytes(report.solution.value, p.keyBytes));
      assert report.solution.value in LA.Solutions(Pairs(unique), p.Width());
      BitLists.PowerOfBytes(p.keyBytes);
      DigitsRoundTrip(256, report.solution.value, p.keyBytes);
    }
    r := Ok(DecodeResult(|eqs|, |unique|, report, recovered));
    assert Recovers(r.value, p, unique);
    forall key: Bytes | |key| == p.keyBytes ensures recovered == Some(key) <==> OnlySolution(p, eqs, BytesToInt(key)) {
      OnlyIff(p, eqs, unique, BytesToInt(key));
    }
  }

  lemma OnlyIff(p: Profile, eqs: seq<RatelessEquation>, unique: seq<RatelessEquation>, key: nat)
    requires Deduplicated(eqs, unique)
    ensures OnlySolution(p, eqs, key) <==> LA.Solutions(Pairs(unique), p.Width()) == {key}
  {
    hide Deduplicated, LA.Solutions;
    if OnlySolution(p, eqs, key) {
      var out :| Deduplicated(eqs, out) && LA.Solutions(Pairs(out), p.Width()) == {key};
      DeduplicatedUnique(eqs, unique, out);
    }
  }

  lemma RowsFromInput(p: Profile, eqs: seq<RatelessEquation>, unique: seq<RatelessEquation>)
    requires Deduplicated(eqs, unique) && forall i :: 0 <= i < |eqs| ==> eqs[i].mask < Pow2(p.Width())
    ensures forall i :: 0 <= i < |unique| ==> LA.ValidRow(Pairs(unique)[i], p.Width())
  {
  }

  lemma {:induction false} DistinctIds(out: seq<RatelessEquation>)
    requires AscendingIds(out)
    ensures |Ids(out)| == |out|
  {
    if out != [] {
      var init, last := out[..|out| - 1], out[|out| - 1];
      assert out == init + [last];
      DistinctIds(init);
      IdsSnoc(init, last);
      assert last.equationId !in Ids(init);
    }
  }

  /** The solver's report on the deduplicated form of an honest list. */
  lemma HonestReport(p: Profile, key: Bytes, eqs: seq<RatelessEquation>, unique: seq<RatelessEquation>,
                     result: Result<Gf2.SolveResult>)
    requires p.keyBytes > 0 && |key| == p.keyBytes && AllHonest(p, BytesToInt(key), eqs) && Deduplicated(eqs, unique)
    requires result.Err? ==> exists k :: 0 <= k < |unique| && !LA.ValidRow(Pairs(unique)[k], p.Width())
    requires result.Ok? ==> result.value.width == p.Width() && Gf2.Reports(result.value, Pairs(unique), p.Width())
    ensures result.Ok? && result.value.consistent
    ensures BytesToInt(key) < Pow2(p.Width()) && IntToBytes(BytesToInt(key), p.keyBytes) == key
    ensures result.value.rank == LA.Rank(RowsOf(eqs))
    ensures LA.Rank(RowsOf(eqs)) == p.Width() <==> result.value.solution == Some(BytesToInt(key))
  {
    ValueRoundTrip(256, key);
    BitLists.PowerOfBytes(p.keyBytes);
    var k, w := BytesToInt(key), p.Width();
    HonestRowsKept(p, k, eqs, unique);
    HonestSystem(p, k, unique);
    LA.RankOfSameRows(RowsOf(eqs), RowsOf(unique));
    assert result.Ok? by {
      forall i | 0 <= i < |unique| ensures LA.ValidRow(Pairs(unique)[i], w) { assert Pairs(unique)[i] in Pairs(unique); }
    }
    if !result.value.consistent { Gf2.ConflictMeansNone(result.value, Pairs(unique), w); }
  }
}
