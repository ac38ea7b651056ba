/** Gaussian elimination over GF(2): the rank counter and the reduced-basis solver. */
module Gf2 {
  import opened Wrappers
  import opened BitInts
  import opened LinearAlgebra

  datatype SolveResult = SolveResult(
    width: nat, equationsSeen: nat, rank: nat, consistent: bool, solution: Option<nat>,
    redundant: nat, inconsistent: nat)
  {
    /** The system has a unique solution and this result carries it. */
    predicate Solved() {
      consistent && rank == width && solution.Some?
    }
  }

  /** The position of the highest set bit, `bit_length() - 1`. */
  function Top(v: nat): (t: nat)
    requires v != 0
  {
    BitLength(v) - 1
  }

  // ----- ordinary echelon bases -----

  /**
    `basis` is keyed by top bit, its rows lie in `s`, and its keys are exactly the top bits of
    the non-zero vectors of `s`.
    */
  ghost predicate Echelon(basis: map<nat, nat>, s: set<nat>) {
    && (forall p {:trigger basis[p]} :: p in basis ==> basis[p] in s && basis[p] != 0 && Top(basis[p]) == p)
    && TopsIn(basis.Keys, s)
  }

  /** The highest set bits of the non-zero vectors of `s`. */
  function TopBits(s: set<nat>): (t: set<nat>) {
    set v <- s | v != 0 :: Top(v)
  }

  /** The keys of an echelon basis are determined by the span alone. */
  lemma EchelonKeys(basis: map<nat, nat>, s: set<nat>)
    requires Echelon(basis, s)
    ensures basis.Keys == TopBits(s)
  {
    forall p | p in basis ensures p in TopBits(s) {
      assert basis[p] in s && basis[p] != 0 && Top(basis[p]) == p;
    }
  }

  /** Two vectors of the same coset differ by a vector of the closed set. */
  lemma SameCoset(s: set<nat>, mask: nat, r: nat, v: nat)
    requires Closed(s) && Xor(r, mask) in s && v in Coset(s, mask)
    ensures Xor(v, r) in s && v == Xor(Xor(v, r), r)
  {
    InCoset(s, mask, v);
    assert XorIn(s, Xor(v, mask), Xor(r, mask));
    XorMoves(v, r, mask);
    XorCancel(v, r);
  }

  /** `mask` and its reduced form `r` belong to `s` together. */
  lemma ReducedOutside(s: set<nat>, mask: nat, r: nat)
    requires Closed(s) && Xor(r, mask) in s
    ensures mask in s <==> r in s
    ensures r in Coset(s, mask)
  {
    XorCancel(r, mask);
    XorCancel(mask, r);
    XorCommutes(r, mask);
    assert mask in s ==> XorIn(s, Xor(r, mask), mask);
    assert r in s ==> XorIn(s, Xor(mask, r), r);
    InCoset(s, mask, r);
  }

  /** The top bits of the non-zero vectors of `s` are keys. */
  ghost predicate TopsIn(keys: set<nat>, s: set<nat>) {
    forall v {:trigger Top(v)} :: v in s && v != 0 ==> Top(v) in keys
  }

  /**
    A row that reduces, modulo the span, to a vector with a new top bit is independent, and the
    enlarged span has exactly one more top bit.
    */
  lemma NewTop(keys: set<nat>, s: set<nat>, mask: nat, r: nat)
    requires Closed(s) && TopsIn(keys, s)
    requires r > 0 && Xor(r, mask) in s && Top(r) !in keys
    ensures mask !in s
    ensures TopsIn(keys + {Top(r)}, s + Coset(s, mask))
  {
    hide Closed, Xor, Coset, BitLength;
    ReducedOutside(s, mask, r);
    forall v | v in Coset(s, mask) && v != 0 ensures Top(v) in keys + {Top(r)} { CosetTop(keys, s, mask, r, v); }
  }

  lemma CosetTop(keys: set<nat>, s: set<nat>, mask: nat, r: nat, v: nat)
    requires Closed(s) && TopsIn(keys, s) && r > 0 && Xor(r, mask) in s && Top(r) !in keys
    requires v in Coset(s, mask) && v != 0
    ensures Top(v) in keys + {Top(r)}
  {
    hide Closed, Coset, BitLength;
    SameCoset(s, mask, r, v);
    var u := Xor(v, r);
    BitLengthOfXor(u, r);
    hide Xor;
    assert u != 0 ==> Top(u) in keys;
  }

  lemma EchelonInsert(basis: map<nat, nat>, s: set<nat>, mask: nat, r: nat)
    requires Closed(s) && Echelon(basis, s)
    requires r > 0 && Xor(r, mask) in s && Top(r) !in basis
    ensures mask !in s && Echelon(basis[Top(r) := r], s + Coset(s, mask))
  {
    NewTop(basis.Keys, s, mask, r);
    ReducedOutside(s, mask, r);
    assert basis[Top(r) := r].Keys == basis.Keys + {Top(r)};
  }

  /** The inner loop of the rank counter: reduce one row mask and insert what is left of it. */
  method InsertMask(basis: map<nat, nat>, raw: nat, ghost s: set<nat>) returns (b: map<nat, nat>)
    requires Closed(s) && Echelon(basis, s)
    ensures Echelon(b, s + Coset(s, raw))
    ensures |b| == |basis| + (if raw in s then 0 else 1)
  {
    b := basis;
    var mask := raw;
    XorSelf(raw);
    while mask != 0
      invariant Xor(mask, raw) in s
      decreases BitLength(mask)
    {
      var pivot := Top(mask);
      if pivot !in basis {
        EchelonInsert(basis, s, raw, mask);
        return basis[pivot := mask];
      }
      ReduceMask(s, raw, mask, basis[pivot]);
      BitLengthOfXor(mask, basis[pivot]);
      mask := Xor(mask, basis[pivot]);
    }
    XorZero(raw);
    CosetSameOrDisjoint(s, raw);
    assert s + Coset(s, raw) == s;
  }

  lemma ReduceMask(s: set<nat>, raw: nat, mask: nat, row: nat)
    requires Closed(s) && Xor(mask, raw) in s && row in s
    ensures Xor(Xor(mask, row), raw) in s
  {
    assert XorIn(s, Xor(mask, raw), row);
    XorMoves(mask, row, raw);
    XorMoves(mask, raw, row);
  }

  /** The rank of row masks, by ordinary pivot elimination. */
  method Gf2Rank(rows: seq<int>, width: nat) returns (rank: Result<nat>)
    ensures rank.Ok? <==> forall m <- rows :: 0 <= m < Pow2(width)
    ensures rank.Ok? ==> AllNat(rows) && rank.value == Rank(NatRows(rows)) == |TopBits(Span(NatRows(rows)))|
  {
    hide Span, Rank, Echelon, Coset;
    var basis: map<nat, nat> := map[];
    StartEchelon();
    for i := 0 to |rows|
      invariant forall k :: 0 <= k < i ==> 0 <= rows[k] < Pow2(width)
      invariant AllNat(rows[..i])
      invariant Echelon(basis, Span(NatRows(rows[..i])))
      invariant |basis| == Rank(NatRows(rows[..i]))
    {
      var raw := rows[i];
      assert raw in rows;
      if raw < 0 || raw >= Pow2(width) {
        return Err;
      }
      ghost var prefix := NatRows(rows[..i]);
      NatRowsSnoc(rows, i);
      RankSnoc(prefix, raw);
      SpanSnoc(prefix, raw);
      SpanClosed(prefix);
      basis := InsertMask(basis, raw, Span(prefix));
    }
    assert rows[..|rows|] == rows;
    EchelonKeys(basis, Span(NatRows(rows)));
    rank := Ok(|basis|);
  }

  lemma StartEchelon()
    ensures Echelon(map[], Span([])) && Rank([]) == 0
  {
  }

  predicate AllNat(rows: seq<int>) {
    forall i :: 0 <= i < |rows| ==> rows[i] >= 0
  }

  function NatRows(rows: seq<int>): (r: seq<nat>)
    requires AllNat(rows)
    ensures |r| == |rows| && forall i :: 0 <= i < |rows| ==> r[i] == rows[i]
  {
    seq(|rows|, i requires 0 <= i < |rows| => rows[i] as nat)
  }

  lemma NatRowsSnoc(rows: seq<int>, i: nat)
    requires i < |rows| && rows[i] >= 0 && AllNat(rows[..i])
    ensures AllNat(rows[..i + 1])
    ensures NatRows(rows[..i + 1]) == NatRows(rows[..i]) + [rows[i]]
  {
    assert rows[..i + 1] == rows[..i] + [rows[i]];
  }

  lemma SpanSnoc(rows: seq<nat>, r: nat)
    ensures Span(rows + [r]) == Span(rows) + Coset(Span(rows), r)
  {
    assert (rows + [r])[..|rows|] == rows;
  }

  // ----- augmented rows and reduced bases -----

  /** The augmented row `(mask << 1) | rhs` holds for `x`. */
  predicate RowHolds(row: nat, x: nat) {
    Dot(row / 2, x) <==> row % 2 == 1
  }

  ghost predicate RowsHold(basis: map<nat, nat>, x: nat) {
    forall p <- basis :: RowHolds(basis[p], x)
  }

  lemma RowHoldsXor(a: nat, b: nat, x: nat)
    requires RowHolds(b, x)
    ensures RowHolds(Xor(a, b), x) <==> RowHolds(a, x)
  {
    XorHalf(a, b);
    DotXorLeft(a / 2, b / 2, x);
  }

  /** Each row has its key as top mask bit, and contains no other row's pivot. */
  ghost predicate ReducedRows(basis: map<nat, nat>, width: nat) {
    && (forall p {:trigger basis[p]} :: p in basis ==> p < width && basis[p] / 2 != 0 && Top(basis[p] / 2) == p)
    && (forall p, q {:trigger Bit(basis[p] / 2, q)} :: p in basis && q in basis && p != q ==> !Bit(basis[p] / 2, q))
  }

  ghost predicate InSpan(basis: map<nat, nat>, s: set<nat>) {
    forall p {:trigger basis[p]} :: p in basis ==> basis[p] / 2 in s
  }

  ghost predicate SameSolutions(basis: map<nat, nat>, es: seq<Equation>) {
    forall x {:trigger RowsHold(basis, x)} {:trigger SatisfiesAll(es, x)} :: SatisfiesAll(es, x) <==> RowsHold(basis, x)
  }

  /**
    The solver's loop invariant on its basis: reduced rows that lie in the span of the masks
    seen so far, whose keys are all the top bits of that span, with the same solutions.
    */
  ghost predicate Reduced(basis: map<nat, nat>, s: set<nat>, es: seq<Equation>, width: nat) {
    ReducedRows(basis, width) && InSpan(basis, s) && TopsIn(basis.Keys, s) && SameSolutions(basis, es)
  }

  /** So are the pivots of a reduced basis: eliminating above the pivots changes rows, not pivots. */
  lemma ReducedKeys(basis: map<nat, nat>, s: set<nat>, es: seq<Equation>, width: nat)
    requires Reduced(basis, s, es, width)
    ensures basis.Keys == TopBits(s)
  {
    hide SameSolutions;
    forall p | p in basis ensures p in TopBits(s) {
      assert basis[p] / 2 in s && Top(basis[p] / 2) == p;
    }
  }

  lemma PivotBit(basis: map<nat, nat>, width: nat, p: nat)
    requires ReducedRows(basis, width) && p in basis
    ensures Bit(basis[p] / 2, p) && basis[p] / 2 < Pow2(width)
  {
    TopBit(basis[p] / 2);
    BitLengthBound(basis[p] / 2, width);
  }

  /** Two reduced bases over the same span are the same rows under the same pivots. */
  lemma ReducedUnique(a: map<nat, nat>, b: map<nat, nat>, s: set<nat>, es: seq<Equation>, es': seq<Equation>, width: nat)
    requires Closed(s) && Reduced(a, s, es, width) && Reduced(b, s, es', width)
    ensures a.Keys == b.Keys == TopBits(s)
    ensures forall p <- a :: a[p] / 2 == b[p] / 2
  {
    hide SameSolutions, Closed;
    ReducedKeys(a, s, es, width);
    ReducedKeys(b, s, es', width);
    forall p | p in a ensures a[p] / 2 == b[p] / 2 {
      var x, y := a[p] / 2, b[p] / 2;
      assert Xor(x, y) in s by { InSpanXor(s, x, y); }
      forall q | q in a ensures !Bit(Xor(x, y), q) {
        XorBit(x, y, q);
        if q == p {
          PivotBit(a, width, p);
          PivotBit(b, width, p);
        }
      }
      NoPivotIsZero(a.Keys, s, Xor(x, y));
      XorCancel(x, y);
      XorZero(y);
    }
  }

  lemma InSpanXor(s: set<nat>, x: nat, y: nat)
    requires Closed(s) && x in s && y in s
    ensures Xor(x, y) in s
  {
    assert XorIn(s, x, y);
  }

  /** A vector of the span without any pivot is zero. */
  lemma NoPivotIsZero(keys: set<nat>, s: set<nat>, v: nat)
    requires TopsIn(keys, s) && v in s && forall q <- keys :: !Bit(v, q)
    ensures v == 0
  {
    if v != 0 {
      assert Top(v) in keys;
      TopBit(v);
    }
  }

  /** None of the pivots from `low` up occurs in `mask`. */
  ghost predicate NoPivots(basis: map<nat, nat>, mask: nat, low: nat) {
    forall q {:trigger Bit(mask, q)} :: q in basis && low <= q ==> !Bit(mask, q)
  }

  /** What reducing an equation's row keeps: its solutions among those of the basis. */
  ghost predicate Equivalent(basis: map<nat, nat>, row: nat, row': nat) {
    forall x {:trigger RowsHold(basis, x)} :: RowsHold(basis, x) ==> (RowHolds(row, x) <==> RowHolds(row', x))
  }

  lemma ReduceRow(basis: map<nat, nat>, width: nat, row0: nat, row: nat, p: nat)
    requires ReducedRows(basis, width) && p in basis
    requires Equivalent(basis, row, row0) && row / 2 < Pow2(width) && Bit(row / 2, p)
    requires NoPivots(basis, row / 2, p + 1)
    ensures Equivalent(basis, Xor(row, basis[p]), row0)
    ensures Xor(row, basis[p]) / 2 < Pow2(width)
    ensures NoPivots(basis, Xor(row, basis[p]) / 2, p)
  {
    var b := basis[p];
    XorHalf(row, b);
    PivotBit(basis, width, p);
    XorBound(row / 2, b / 2, width);
    forall x | RowsHold(basis, x) ensures RowHolds(Xor(row, b), x) <==> RowHolds(row0, x) {
      RowHoldsXor(row, b, x);
    }
    forall q | q in basis && p <= q ensures !Bit(Xor(row, b) / 2, q) { XorBit(row / 2, b / 2, q); }
  }

  /** Reduce an equation's row against every pivot, highest first. */
  method Reduce(basis: map<nat, nat>, mask: nat, rhs: nat, ghost s: set<nat>, width: nat) returns (row: nat)
    requires mask < Pow2(width) && rhs <= 1
    requires ReducedRows(basis, width) && InSpan(basis, s) && Closed(s)
    ensures Equivalent(basis, row, 2 * mask + rhs) && Xor(row / 2, mask) in s
    ensures row / 2 < Pow2(width) && NoPivots(basis, row / 2, 0)
  {
    row := 2 * mask + rhs;
    ghost var row0 := row;
    XorSelf(mask);
    // Walking all bit positions downwards and skipping the others visits the sorted pivots.
    for p := width downto 0
      invariant Equivalent(basis, row, row0) && Xor(row / 2, mask) in s
      invariant row / 2 < Pow2(width)
      invariant NoPivots(basis, row / 2, p)
    {
      if p in basis && Bit(row / 2, p) {
        ReduceRow(basis, width, row0, row, p);
        ReduceMask(s, mask, row / 2, basis[p] / 2);
        XorHalf(row, basis[p]);
        row := Xor(row, basis[p]);
      }
    }
  }

  /** The new pivot is exclusive-or'd out of every row that contains it. */
  function Eliminate(basis: map<nat, nat>, row: nat, pivot: nat): (b: map<nat, nat>) {
    map q <- basis :: if Bit(basis[q] / 2, pivot) then Xor(basis[q], row) else basis[q]
  }

  method EliminatePivot(basis: map<nat, nat>, row: nat, pivot: nat) returns (b: map<nat, nat>)
    ensures b == Eliminate(basis, row, pivot) && b.Keys == basis.Keys
  {
    b := basis;
    var todo := basis.Keys;
    while todo != {}
      invariant todo <= basis.Keys && b.Keys == basis.Keys
      invariant forall q <- basis :: b[q] == if q in todo then basis[q] else Eliminate(basis, row, pivot)[q]
    {
      var existing :| existing in todo;
      if Bit(b[existing] / 2, pivot) {
        b := b[existing := Xor(b[existing], row)];
      }
      todo := todo - {existing};
    }
  }

  /** One row after elimination: same top bit, no new pivot, no old foreign pivot. */
  lemma EliminatedRow(basis: map<nat, nat>, width: nat, row: nat, pivot: nat, q: nat)
    requires ReducedRows(basis, width) && q in basis
    requires row / 2 != 0 && Top(row / 2) == pivot && NoPivots(basis, row / 2, 0)
    ensures q != pivot
    ensures var r := Eliminate(basis, row, pivot)[q] / 2;
      r != 0 && Top(r) == q && !Bit(r, pivot) && forall q' <- basis :: q' != q ==> !Bit(r, q')
  {
    var old_mask := basis[q] / 2;
    TopBit(row / 2);
    XorHalf(basis[q], row);
    XorBit(old_mask, row / 2, pivot);
    TopBit(old_mask);
    BitLengthOfXor(old_mask, row / 2);
    forall q' | q' in basis && q' != q ensures !Bit(Eliminate(basis, row, pivot)[q] / 2, q') {
      XorBit(old_mask, row / 2, q');
    }
  }

  lemma EliminatedRows(basis: map<nat, nat>, width: nat, row: nat, pivot: nat)
    requires ReducedRows(basis, width)
    requires row / 2 != 0 && Top(row / 2) == pivot && pivot < width && NoPivots(basis, row / 2, 0)
    ensures pivot !in basis
    ensures ReducedRows(Eliminate(basis, row, pivot)[pivot := row], width)
  {
    forall q | q in basis
      ensures q != pivot
      ensures var r := Eliminate(basis, row, pivot)[q] / 2;
        r != 0 && Top(r) == q && !Bit(r, pivot) && forall q' <- basis :: q' != q ==> !Bit(r, q')
    {
      EliminatedRow(basis, width, row, pivot, q);
    }
  }

  lemma EliminatedSolutions(basis: map<nat, nat>, row: nat, pivot: nat, x: nat)
    requires pivot !in basis
    ensures RowsHold(Eliminate(basis, row, pivot)[pivot := row], x) <==> (RowsHold(basis, x) && RowHolds(row, x))
  {
    var b := Eliminate(basis, row, pivot)[pivot := row];
    assert b[pivot] == row;
    if RowHolds(row, x) {
      forall q | q in basis ensures q in b && (RowHolds(b[q], x) <==> RowHolds(basis[q], x)) {
        RowHoldsXor(basis[q], row, x);
      }
    }
  }

  lemma EliminatedSpan(basis: map<nat, nat>, s: set<nat>, mask: nat, row: nat, pivot: nat)
    requires Closed(s) && InSpan(basis, s) && Xor(row / 2, mask) in s
    ensures InSpan(Eliminate(basis, row, pivot)[pivot := row], s + Coset(s, mask))
  {
    var t := s + Coset(s, mask);
    CosetClosed(s, mask);
    ReducedOutside(s, mask, row / 2);
    forall q | q in basis ensures Xor(basis[q], row) / 2 in t {
      XorHalf(basis[q], row);
      assert XorIn(t, basis[q] / 2, row / 2);
    }
  }

  lemma SatisfiesSnoc(es: seq<Equation>, e: Equation, x: nat)
    requires 0 <= e.mask && 0 <= e.rhs <= 1
    ensures SatisfiesAll(es + [e], x) <==> (SatisfiesAll(es, x) && RowHolds(2 * e.mask + e.rhs, x))
  {
    assert (2 * e.mask + e.rhs) / 2 == e.mask && (2 * e.mask + e.rhs) % 2 == e.rhs;
    assert Satisfies(e, x) <==> RowHolds(2 * e.mask + e.rhs, x);
    assert (es + [e])[|es|] == e;
    assert forall f :: f in es + [e] <==> f in es || f == e;
  }

  /** An equation whose reduced row is not zero extends the basis. */
  lemma NewPivot(basis: map<nat, nat>, s: set<nat>, es: seq<Equation>, e: Equation, width: nat, row: nat)
    requires Closed(s) && ValidRow(e, width) && Reduced(basis, s, es, width)
    requires Equivalent(basis, row, 2 * e.mask + e.rhs) && Xor(row / 2, e.mask) in s
    requires 0 < row / 2 < Pow2(width) && NoPivots(basis, row / 2, 0)
    ensures var pivot := Top(row / 2);
      e.mask !in s && pivot !in basis
      && Reduced(Eliminate(basis, row, pivot)[pivot := row], s + Coset(s, e.mask), es + [e], width)
  {
    var pivot := Top(row / 2);
    var b := Eliminate(basis, row, pivot)[pivot := row];
    BitLengthBound(row / 2, width);
    EliminatedRows(basis, width, row, pivot);
    EliminatedSpan(basis, s, e.mask, row, pivot);
    NewTop(basis.Keys, s, e.mask, row / 2);
    assert b.Keys == basis.Keys + {pivot};
    forall x ensures SatisfiesAll(es + [e], x) <==> RowsHold(b, x) {
      SatisfiesSnoc(es, e, x);
      EliminatedSolutions(basis, row, pivot, x);
    }
  }

  /** An equation whose reduced mask is zero adds nothing, or contradicts the others. */
  lemma ZeroRow(basis: map<nat, nat>, s: set<nat>, es: seq<Equation>, e: Equation, width: nat, row: nat)
    requires Closed(s) && ValidRow(e, width) && Reduced(basis, s, es, width)
    requires Equivalent(basis, row, 2 * e.mask + e.rhs) && Xor(row / 2, e.mask) in s && row / 2 == 0
    ensures e.mask in s
    ensures row % 2 == 1 ==> !Solvable(es + [e], width)
    ensures row % 2 == 0 ==> Reduced(basis, s + Coset(s, e.mask), es + [e], width)
    ensures row % 2 == 0 ==> (Solvable(es + [e], width) <==> Solvable(es, width))
  {
    XorZero(e.mask);
    CosetSameOrDisjoint(s, e.mask);
    assert s + Coset(s, e.mask) == s;
    forall x ensures SatisfiesAll(es + [e], x) <==> (SatisfiesAll(es, x) && row % 2 == 0) {
      SatisfiesSnoc(es, e, x);
      DotZero(x);
      assert SatisfiesAll(es, x) <==> RowsHold(basis, x);
    }
  }

  /** A solvable system stays solvable when an independent equation joins it. */
  lemma IndependentSolvable(es: seq<Equation>, e: Equation, width: nat)
    requires ValidRows(es, width) && ValidRow(e, width)
    requires Solvable(es, width) && e.mask !in Span(Masks(es))
    ensures Solvable(es + [e], width)
  {
    IndependentHalves(es, e, width);
    NonEmptySize(Solutions(es, width));
  }

  lemma NonEmptySize<T>(s: set<T>)
    ensures s != {} <==> |s| > 0
  {
  }

  lemma AllKeys(keys: set<nat>, width: nat)
    requires (forall p <- keys :: p < width) && |keys| == width
    ensures forall p :: 0 <= p < width ==> p in keys
  {
    var all := Below(width);
    assert keys <= all;
    DisjointSize(keys, all - keys);
    assert keys + (all - keys) == all;
  }

  /** A full reduced basis consists of unit rows, whose right-hand sides spell the solution. */
  lemma FullBasis(basis: map<nat, nat>, width: nat, sol: nat)
    requires ReducedRows(basis, width) && |basis| == width
    requires forall p <- basis :: Bit(sol, p) <==> basis[p] % 2 == 1
    ensures RowsHold(basis, sol)
  {
    AllKeys(basis.Keys, width);
    forall p | p in basis ensures RowHolds(basis[p], sol) {
      var m := basis[p] / 2;
      PivotBit(basis, width, p);
      Pow2Monotone(p, width);
      forall i | 0 <= i < width ensures Bit(m, i) <==> Bit(Pow2(p), i) {
        BitOfPow2(p, i);
        assert i in basis;
      }
      SameBitsEqual(m, Pow2(p), width);
      DotPow2(sol, p);
      DotCommutes(sol, Pow2(p));
    }
  }

  method ReadSolution(basis: map<nat, nat>, width: nat) returns (sol: nat)
    requires ReducedRows(basis, width)
    ensures sol < Pow2(width) && forall p :: Bit(sol, p) <==> (p in basis && basis[p] % 2 == 1)
  {
    sol := 0;
    forall i ensures !Bit(0, i) { BitOfZero(i); }
    var todo := basis.Keys;
    while todo != {}
      invariant todo <= basis.Keys && sol < Pow2(width)
      invariant forall p :: Bit(sol, p) <==> (p in basis && p !in todo && basis[p] % 2 == 1)
    {
      var pivot :| pivot in todo;
      if basis[pivot] % 2 == 1 {
        Pow2Monotone(pivot, width);
        OrBound(sol, Pow2(pivot), width);
        forall i ensures Bit(Or(sol, Pow2(pivot)), i) <==> (Bit(sol, i) || i == pivot) {
          OrBit(sol, Pow2(pivot), i);
          BitOfPow2(pivot, i);
        }
        sol := Or(sol, Pow2(pivot));
      }
      todo := todo - {pivot};
    }
  }

  // ----- the solver -----

  /** The rows before position `k` are well formed and consistent. */
  ghost predicate GoodPrefix(es: seq<Equation>, k: nat, width: nat) {
    k <= |es| && ValidRows(es[..k], width) && Solvable(es[..k], width)
  }

  /** What the solver reports about a well-formed consistent system. */
  ghost predicate ReportsSolved(r: SolveResult, es: seq<Equation>, width: nat) {
    && ValidRows(es, width) && Solvable(es, width)
    && r.equationsSeen == |es| && r.inconsistent == 0
    && r.rank == Rank(Masks(es)) <= width
    && |Solutions(es, width)| == Pow2(width - r.rank)
    && (r.Solved() <==> |Solutions(es, width)| == 1)
    && (r.solution.Some? <==> r.Solved())
    && (r.Solved() ==> Solutions(es, width) == {r.solution.value})
  }

  /** What it reports when row `seen - 1` contradicts the consistent rows before it. */
  ghost predicate ReportsConflict(r: SolveResult, es: seq<Equation>, width: nat) {
    && 0 < r.equationsSeen <= |es| && ValidRows(es[..r.equationsSeen], width)
    && GoodPrefix(es, r.equationsSeen - 1, width) && !Solvable(es[..r.equationsSeen], width)
    && r.inconsistent == 1 && r.solution == None
    && r.rank == Rank(Masks(es[..r.equationsSeen - 1]))
  }

  /** What the solver reports. */
  ghost predicate Reports(r: SolveResult, es: seq<Equation>, width: nat) {
    if r.consistent then ReportsSolved(r, es, width) else ReportsConflict(r, es, width)
  }

  /**
    Solve a linear system over GF(2).  Rows are checked as they are reached, so a malformed row
    raises exactly when the rows before it are well formed and consistent.
    */
  method SolveGf2(equations: seq<Equation>, width: int) returns (result: Result<SolveResult>)
    ensures result.Err? <==> (width <= 0
      || (exists k :: 0 <= k < |equations| && GoodPrefix(equations, k, width) && !ValidRow(equations[k], width)))
    ensures result.Ok? ==> result.value.width == width
    ensures result.Ok? ==> result.value.equationsSeen == result.value.rank + result.value.redundant + result.value.inconsistent
    ensures result.Ok? ==> Reports(result.value, equations, width)
  {
    hide Equivalent, NoPivots, Coset, Closed, InSpan, TopsIn, ReducedRows, SameSolutions, Span, Rank, Xor, Eliminate, Solvable;
    if width <= 0 {
      return Err;
    }
    var basis: map<nat, nat> := map[];
    var seen, redundant := 0, 0;
    StartReduced(width);
    while seen < |equations|
      invariant 0 <= seen <= |equations| && redundant >= 0
      invariant GoodPrefix(equations, seen, width)
      invariant forall k :: 0 <= k < seen ==> ValidRow(equations[k], width)
      invariant Reduced(basis, Span(Masks(equations[..seen])), equations[..seen], width)
      invariant |basis| == Rank(Masks(equations[..seen]))
      invariant seen == |basis| + redundant
    {
      ghost var es := equations[..seen];
      ghost var span := Span(Masks(es));
      var e := equations[seen];
      assert equations[..seen + 1] == es + [e];
      if e.mask < 0 || e.mask >= Pow2(width) || e.rhs < 0 || e.rhs > 1 {
        return Err;
      }
      seen := seen + 1;
      SpanClosed(Masks(es));
      RankOfStep(es, e, width);
      SpanOfStep(es, e, width);
      var row := Reduce(basis, e.mask, e.rhs, span, width);
      if row / 2 == 0 {
        ZeroRow(basis, span, es, e, width, row);
        if row % 2 == 1 {
          PrefixesOfBad(equations, seen, width);
          return Ok(SolveResult(width, seen, |basis|, false, None, redundant, 1));
        }
        redundant := redundant + 1;
      } else {
        NewPivot(basis, span, es, e, width, row);
        IndependentSolvable(es, e, width);
        var pivot := Top(row / 2);
        basis := EliminatePivot(basis, row, pivot);
        basis := basis[pivot := row];
      }
    }
    assert equations[..seen] == equations;
    var solution := None;
    if |basis| == width {
      var sol := ReadSolution(basis, width);
      FullBasis(basis, width, sol);
      solution := Some(sol);
    }
    FinalReport(basis, equations, width, solution);
    result := Ok(SolveResult(width, seen, |basis|, true, solution, redundant, 0));
  }

  /** Counting the solutions turns the final basis into the report. */
  lemma FinalReport(basis: map<nat, nat>, es: seq<Equation>, width: nat, solution: Option<nat>)
    requires GoodPrefix(es, |es|, width) && ValidRows(es, width)
    requires |basis| == Rank(Masks(es)) && SameSolutions(basis, es)
    requires solution.Some? <==> |basis| == width
    requires solution.Some? ==> solution.value < Pow2(width) && RowsHold(basis, solution.value)
    ensures forall redundant {:trigger SolveResult(width, |es|, |basis|, true, solution, redundant, 0)} ::
      ReportsSolved(SolveResult(width, |es|, |basis|, true, solution, redundant, 0), es, width)
  {
    hide Pow2, Below, Rank;
    assert es[..|es|] == es;
    UniqueIffFullRank(es, width);
    SolutionCount(es, width);
    if solution.Some? {
      Singleton(Solutions(es, width), solution.value);
    }
  }

  lemma StartReduced(width: nat)
    ensures Solvable([], width) && Rank(Masks([])) == 0
    ensures Reduced(map[], Span(Masks([])), [], width)
  {
    NoEquations(width);
    assert 0 in Solutions([], width);
  }

  lemma SpanOfStep(es: seq<Equation>, e: Equation, width: nat)
    requires ValidRows(es, width) && ValidRow(e, width)
    ensures ValidRows(es + [e], width)
    ensures Span(Masks(es + [e])) == Span(Masks(es)) + Coset(Span(Masks(es)), e.mask)
  {
    MasksSnoc(es, e);
    SpanSnoc(Masks(es), e.mask);
  }

  /** Every solution of a system solves each of its prefixes. */
  lemma PrefixSolutions(es: seq<Equation>, k: nat, width: nat)
    requires k <= |es|
    ensures Solutions(es, width) <= Solutions(es[..k], width)
  {
    assert forall e <- es[..k] :: e in es;
  }

  /** Beyond the first contradiction no prefix is consistent. */
  lemma PrefixesOfBad(es: seq<Equation>, seen: nat, width: nat)
    requires seen <= |es| && !Solvable(es[..seen], width)
    ensures forall k :: seen <= k <= |es| ==> !GoodPrefix(es, k, width)
  {
    forall k | seen <= k <= |es| ensures !GoodPrefix(es, k, width) {
      PrefixSolutions(es[..k], seen, width);
      assert es[..k][..seen] == es[..seen];
    }
  }

  /** A reported conflict means that the whole system has no solution. */
  lemma ConflictMeansNone(r: SolveResult, es: seq<Equation>, width: nat)
    requires ReportsConflict(r, es, width)
    ensures Solutions(es, width) == {}
  {
    PrefixSolutions(es, r.equationsSeen, width);
  }

  /**
    The order and the repetition of equations do not matter: two lists of the same well-formed
    equations get the same verdict, and if consistent the same rank and the same solution.
    */
  lemma OrderIrrelevant(r: SolveResult, es: seq<Equation>, r': SolveResult, es': seq<Equation>, width: nat)
    requires ValidRows(es, width) && ValidRows(es', width) && forall e :: e in es <==> e in es'
    requires Reports(r, es, width) && Reports(r', es', width)
    ensures r.consistent == r'.consistent
    ensures r.consistent ==> r.rank == r'.rank && r.solution == r'.solution
  {
    hide Rank;
    assert Solutions(es, width) == Solutions(es', width);
    if !r.consistent { ConflictMeansNone(r, es, width); }
    if !r'.consistent { ConflictMeansNone(r', es', width); }
    SameMasks(es, es');
    SameMasks(es', es);
    RankOfSameRows(Masks(es), Masks(es'));
  }

  lemma SameMasks(es: seq<Equation>, es': seq<Equation>)
    requires (forall e <- es :: e.mask >= 0) && (forall e <- es' :: e.mask >= 0) && forall e <- es :: e in es'
    ensures forall m <- Masks(es) :: m in Masks(es')
  {
    forall m | m in Masks(es) ensures m in Masks(es') {
      var i :| 0 <= i < |es| && Masks(es)[i] == m;
      assert es[i] in es && es[i] in es';
      var j :| 0 <= j < |es'| && es'[j] == es[i];
      assert Masks(es')[j] == m;
    }
  }

  lemma Singleton<T>(s: set<T>, x: T)
    requires |s| == 1 && x in s
    ensures s == {x}
  {
    assert s == {x} + (s - {x});
  }
}
