/**
  The specification side of the GF(2) solver: spans, rank and solution sets of linear systems
  over the two-element field, with vectors and rows as integers.
  */
module LinearAlgebra {
  import opened BitInts

  /** One equation `<mask, x> = rhs`; the raw integers are validated by the solver. */
  datatype Equation = Equation(mask: int, rhs: int)

  predicate ValidRow(e: Equation, width: nat) {
    0 <= e.mask < Pow2(width) && 0 <= e.rhs <= 1
  }

  predicate ValidRows(es: seq<Equation>, width: nat) {
    forall e <- es :: ValidRow(e, width)
  }

  function Masks(es: seq<Equation>): (rows: seq<nat>)
    requires forall e <- es :: e.mask >= 0
    ensures |rows| == |es| && forall i :: 0 <= i < |es| ==> rows[i] == es[i].mask
  {
    seq(|es|, i requires 0 <= i < |es| => assert es[i] in es; es[i].mask)
  }

  predicate Satisfies(e: Equation, x: nat) {
    e.mask >= 0 && (Dot(e.mask, x) <==> e.rhs == 1)
  }

  predicate SatisfiesAll(es: seq<Equation>, x: nat) {
    forall e <- es :: Satisfies(e, x)
  }

  /** The first `n` naturals. */
  function Below(n: nat): (s: set<nat>)
    ensures forall x: nat :: x in s <==> x < n
    ensures |s| == n
  {
    if n == 0 then {} else Below(n - 1) + {n - 1}
  }

  /** The vectors of `width` bits that satisfy every equation. */
  function Solutions(es: seq<Equation>, width: nat): (s: set<nat>) {
    set x <- Below(Pow2(width)) | SatisfiesAll(es, x)
  }

  predicate Solvable(es: seq<Equation>, width: nat) {
    Solutions(es, width) != {}
  }

  /** The set `s` with every element exclusive-or'd with `r`. */
  function Coset(s: set<nat>, r: nat): (t: set<nat>) {
    set w <- s :: Xor(w, r)
  }

  /** Every exclusive-or of a selection of rows. */
  function Span(rows: seq<nat>): (s: set<nat>) {
    if rows == [] then {0}
    else
      var s := Span(rows[..|rows| - 1]);
      s + Coset(s, rows[|rows| - 1])
  }

  /** How many rows are not combinations of the rows before them. */
  function Rank(rows: seq<nat>): (r: nat)
    ensures r <= |rows|
  {
    if rows == [] then 0
    else
      var init, last := rows[..|rows| - 1], rows[|rows| - 1];
      Rank(init) + (if last in Span(init) then 0 else 1)
  }

  // ----- spans -----

  predicate XorIn(s: set<nat>, u: nat, v: nat) {
    Xor(u, v) in s
  }

  ghost predicate Closed(s: set<nat>) {
    0 in s && forall u, v {:trigger XorIn(s, u, v)} :: u in s && v in s ==> XorIn(s, u, v)
  }

  predicate Bounded(rows: seq<nat>, width: nat) {
    forall i :: 0 <= i < |rows| ==> rows[i] < Pow2(width)
  }

  lemma InCoset(s: set<nat>, r: nat, v: nat)
    ensures v in Coset(s, r) <==> Xor(v, r) in s
  {
    XorCancel(v, r);
    if v in Coset(s, r) {
      var w :| w in s && v == Xor(w, r);
      XorCancel(w, r);
    }
  }

  lemma {:induction false} SpanClosed(rows: seq<nat>)
    ensures Closed(Span(rows))
    ensures forall r <- rows :: r in Span(rows)
  {
    XorZero(0);
    if rows != [] {
      var init, last := rows[..|rows| - 1], rows[|rows| - 1];
      SpanClosed(init);
      XorZero(last);
      assert Xor(0, last) in Coset(Span(init), last);
      CosetClosed(Span(init), last);
      assert rows == init + [last];
    }
  }

  /** Adding one row to a closed set keeps it closed. */
  lemma CosetClosed(s: set<nat>, r: nat)
    requires Closed(s)
    ensures Closed(s + Coset(s, r))
  {
    var t := s + Coset(s, r);
    forall u, v | u in t && v in t ensures XorIn(t, u, v) {
      InCoset(s, r, u); InCoset(s, r, v); InCoset(s, r, Xor(u, v));
      XorMoves(u, v, r);
      var u', v' := Xor(u, r), Xor(v, r);
      assert u in s && v in s ==> XorIn(s, u, v);
      assert u in s && v' in s ==> XorIn(s, u, v');
      assert u' in s && v in s ==> XorIn(s, u', v);
      assert u' in s && v' in s ==> XorIn(s, u', v');
    }
  }

  lemma XorMoves(u: nat, v: nat, r: nat)
    ensures Xor(Xor(u, v), r) == Xor(u, Xor(v, r)) == Xor(Xor(u, r), v)
    ensures Xor(Xor(u, r), Xor(v, r)) == Xor(u, v)
  {
    XorAssociates(u, v, r);
    XorAssociates(u, r, v);
    XorCommutes(r, v);
    XorAssociates(u, r, Xor(v, r));
    XorCancel(v, r);
    XorCommutes(v, r);
  }

  lemma InSpanSnoc(init: seq<nat>, r: nat, v: nat)
    ensures v in Span(init + [r]) <==> (v in Span(init) || Xor(v, r) in Span(init))
  {
    assert (init + [r])[..|init|] == init;
    InCoset(Span(init), r, v);
  }

  /** The span is the least closed set that holds the rows. */
  lemma {:induction false} SpanLeast(rows: seq<nat>, s: set<nat>)
    requires Closed(s) && forall r <- rows :: r in s
    ensures Span(rows) <= s
  {
    if rows != [] {
      var last := rows[|rows| - 1];
      SpanLeast(rows[..|rows| - 1], s);
      forall v | v in s ensures Xor(v, last) in s { assert XorIn(s, v, last); }
    }
  }

  /** Order and repetition of rows are irrelevant to the span. */
  lemma SpanOfSameRows(rows: seq<nat>, rows': seq<nat>)
    requires forall r <- rows :: r in rows'
    ensures Span(rows) <= Span(rows')
  {
    SpanClosed(rows');
    SpanLeast(rows, Span(rows'));
  }

  lemma {:induction false} SpanBounded(rows: seq<nat>, width: nat)
    requires Bounded(rows, width)
    ensures forall v <- Span(rows) :: v < Pow2(width)
  {
    if rows != [] {
      var init, last := rows[..|rows| - 1], rows[|rows| - 1];
      SpanBounded(init, width);
      assert last < Pow2(width);
      forall v | v in Span(init) ensures Xor(v, last) < Pow2(width) {
        XorBound(v, last, width);
      }
    }
  }

  // ----- rank is the dimension of the span -----

  /** Exclusive-or with a fixed value keeps the number of elements. */
  lemma {:induction false} CosetSize(s: set<nat>, r: nat)
    ensures |Coset(s, r)| == |s|
  {
    if s != {} {
      var x :| x in s;
      CosetSize(s - {x}, r);
      InCoset(s - {x}, r, Xor(x, r));
      XorCancel(x, r);
      assert Coset(s, r) == Coset(s - {x}, r) + {Xor(x, r)};
    }
  }

  /** A coset of a closed set is the set itself or disjoint from it. */
  lemma CosetSameOrDisjoint(s: set<nat>, r: nat)
    requires Closed(s)
    ensures r in s ==> Coset(s, r) <= s
    ensures r !in s ==> Coset(s, r) !! s
  {
    forall v | v in Coset(s, r) ensures v in s <==> r in s {
      InCoset(s, r, v);
      XorCancel(v, r);
      XorCancel(r, v);
      assert v in s && Xor(v, r) in s ==> XorIn(s, v, Xor(v, r));
      assert r in s && Xor(v, r) in s ==> XorIn(s, Xor(v, r), r);
    }
  }

  lemma DisjointSize<T>(a: set<T>, b: set<T>)
    requires a !! b
    ensures |a + b| == |a| + |b|
  {
  }

  /** A row doubles a closed set, or leaves it as it is. */
  lemma CosetDoubles(s: set<nat>, r: nat)
    requires Closed(s)
    ensures |s + Coset(s, r)| == if r in s then |s| else 2 * |s|
  {
    CosetSize(s, r);
    CosetSameOrDisjoint(s, r);
    if r in s {
      assert s + Coset(s, r) == s;
    } else {
      DisjointSize(s, Coset(s, r));
    }
  }

  /** The span of rows of rank `n` has `2^n` elements: `Rank` is the dimension. */
  lemma {:induction false} SpanSize(rows: seq<nat>)
    ensures |Span(rows)| == Pow2(Rank(rows))
  {
    hide Coset;
    if rows != [] {
      var init := rows[..|rows| - 1];
      SpanSize(init);
      SpanClosed(init);
      CosetDoubles(Span(init), rows[|rows| - 1]);
    }
  }

  /** Rank depends only on which rows occur: not on their order, not on repetitions. */
  lemma RankOfSameRows(rows: seq<nat>, rows': seq<nat>)
    requires forall r :: r in rows <==> r in rows'
    ensures Span(rows) == Span(rows')
    ensures Rank(rows) == Rank(rows')
  {
    SpanOfSameRows(rows, rows');
    SpanOfSameRows(rows', rows);
    assert Span(rows) == Span(rows');
    SpanSize(rows);
    SpanSize(rows');
    Pow2Injective(Rank(rows), Rank(rows'));
  }

  /** More rows never lower the rank. */
  lemma RankOfMoreRows(rows: seq<nat>, rows': seq<nat>)
    requires forall r <- rows :: r in rows'
    ensures Rank(rows) <= Rank(rows')
  {
    SpanOfSameRows(rows, rows');
    SpanSize(rows);
    SpanSize(rows');
    SubsetSize(Span(rows), Span(rows'));
    if Rank(rows') < Rank(rows) { Pow2Monotone(Rank(rows'), Rank(rows)); }
  }

  lemma SubsetSize<T>(a: set<T>, b: set<T>)
    requires a <= b
    ensures |a| <= |b|
  {
    assert b == a + (b - a);
  }

  /** Rows of `width` bits have rank at most `width`. */
  lemma RankAtMostWidth(rows: seq<nat>, width: nat)
    requires Bounded(rows, width)
    ensures Rank(rows) <= width
  {
    SpanBounded(rows, width);
    SpanSize(rows);
    SubsetSize(Span(rows), Below(Pow2(width)));
    if width < Rank(rows) { Pow2Monotone(width, Rank(rows)); }
  }

  // ----- solution sets -----

  /** A row outside the span is separated from it by some vector. */
  lemma {:induction false} Separate(rows: seq<nat>, m: nat, width: nat) returns (v: nat)
    requires Bounded(rows, width) && m < Pow2(width)
    requires m !in Span(rows)
    ensures v < Pow2(width) && Dot(m, v) && forall r <- rows :: !Dot(r, v)
    decreases |rows|
  {
    if rows == [] {
      TopBit(m);
      var t := BitLength(m) - 1;
      BitLengthBound(m, width);
      Pow2Monotone(t, width);
      v := Pow2(t);
      DotPow2(m, t);
    } else {
      var init, r := rows[..|rows| - 1], rows[|rows| - 1];
      assert rows == init + [r];
      assert r in rows;
      InSpanSnoc(init, r, m);
      var v1 := Separate(init, m, width);
      if !Dot(r, v1) {
        v := v1;
      } else {
        XorBound(m, r, width);
        var v2 := Separate(init, Xor(m, r), width);
        DotXorLeft(m, r, v2);
        if Dot(m, v2) {
          v := v2;
        } else {
          v := Xor(v1, v2);
          XorBound(v1, v2, width);
          forall q ensures Dot(q, v) <==> (Dot(q, v1) != Dot(q, v2)) { DotXorRight(q, v1, v2); }
        }
      }
    }
  }

  /** A combination of rows that are all orthogonal to `v` is orthogonal to `v`. */
  lemma {:induction false} SpanOrthogonal(rows: seq<nat>, v: nat)
    requires forall r <- rows :: !Dot(r, v)
    ensures forall m <- Span(rows) :: !Dot(m, v)
  {
    DotZero(v);
    if rows != [] {
      var init, r := rows[..|rows| - 1], rows[|rows| - 1];
      SpanOrthogonal(init, v);
      forall m | m in Span(init) ensures !Dot(Xor(m, r), v) { DotXorLeft(m, r, v); }
    }
  }

  /** Two solutions of a system agree on every row of the span. */
  lemma SolutionsAgree(es: seq<Equation>, x: nat, y: nat)
    requires forall e <- es :: e.mask >= 0
    requires SatisfiesAll(es, x) && SatisfiesAll(es, y)
    ensures forall m <- Span(Masks(es)) :: Dot(m, x) <==> Dot(m, y)
  {
    var v := Xor(x, y);
    forall r | r in Masks(es) ensures !Dot(r, v) {
      var i :| 0 <= i < |es| && Masks(es)[i] == r;
      assert es[i] in es && Satisfies(es[i], x) && Satisfies(es[i], y);
      DotXorRight(r, x, y);
    }
    SpanOrthogonal(Masks(es), v);
    forall m | m in Span(Masks(es)) ensures Dot(m, x) <==> Dot(m, y) { DotXorRight(m, x, y); }
  }

  lemma MasksSnoc(es: seq<Equation>, e: Equation)
    requires forall f <- es + [e] :: f.mask >= 0
    ensures forall f <- es :: f.mask >= 0
    ensures e.mask >= 0
    ensures Masks(es + [e]) == Masks(es) + [e.mask]
    ensures Masks(es + [e])[..|es|] == Masks(es)
  {
    assert forall f <- es :: f in es + [e];
    assert e in es + [e];
  }

  lemma SolutionsSnoc(es: seq<Equation>, e: Equation, width: nat)
    ensures Solutions(es + [e], width) == set x <- Solutions(es, width) | Satisfies(e, x)
  {
    assert forall f :: f in es + [e] <==> f in es || f == e;
  }

  /** Moving by a vector that only the new equation notices swaps its solutions and the rest. */
  lemma MoveSolution(es: seq<Equation>, e: Equation, width: nat, v: nat, x: nat)
    requires ValidRows(es, width) && e.mask >= 0 && v < Pow2(width)
    requires Dot(e.mask, v) && forall f <- es :: !Dot(f.mask, v)
    requires x in Solutions(es, width)
    ensures Xor(x, v) in Solutions(es, width)
    ensures Satisfies(e, x) <==> !Satisfies(e, Xor(x, v))
  {
    XorBound(x, v, width);
    forall f | f in es ensures Satisfies(f, Xor(x, v)) {
      assert Satisfies(f, x);
      DotXorRight(f.mask, x, v);
    }
    DotXorRight(e.mask, x, v);
  }

  /** An equation on an independent row halves the solution set. */
  lemma IndependentHalves(es: seq<Equation>, e: Equation, width: nat)
    requires ValidRows(es, width) && ValidRow(e, width)
    requires e.mask !in Span(Masks(es))
    ensures |Solutions(es, width)| == 2 * |Solutions(es + [e], width)|
  {
    BoundedMasks(es, width);
    var v := Separate(Masks(es), e.mask, width);
    forall f | f in es ensures !Dot(f.mask, v) { MaskOfRow(es, f); }
    SolutionsSnoc(es, e, width);
    var all, good := Solutions(es, width), Solutions(es + [e], width);
    var bad := all - good;
    forall y ensures y in bad <==> y in Coset(good, v) {
      XorCancel(y, v);
      InCoset(good, v, y);
      if y in all { MoveSolution(es, e, width, v, y); }
      if Xor(y, v) in all { MoveSolution(es, e, width, v, Xor(y, v)); }
    }
    CosetSize(good, v);
    assert bad == Coset(good, v);
    DisjointSize(good, bad);
    assert all == good + bad;
  }

  lemma MaskOfRow(es: seq<Equation>, f: Equation)
    requires forall e <- es :: e.mask >= 0
    requires f in es
    ensures f.mask in Masks(es)
  {
    var i :| 0 <= i < |es| && es[i] == f;
    assert Masks(es)[i] == f.mask;
  }

  /** An equation on a dependent row changes nothing, or leaves no solution at all. */
  lemma DependentAllOrNothing(es: seq<Equation>, e: Equation, width: nat)
    requires ValidRows(es, width) && e.mask >= 0
    requires e.mask in Span(Masks(es))
    requires Solvable(es + [e], width)
    ensures Solutions(es + [e], width) == Solutions(es, width)
  {
    SolutionsSnoc(es, e, width);
    var y :| y in Solutions(es + [e], width);
    forall x | x in Solutions(es, width) ensures Satisfies(e, x) {
      SolutionsAgree(es, x, y);
    }
  }

  lemma PrefixSolvable(es: seq<Equation>, e: Equation, width: nat)
    requires Solvable(es + [e], width)
    ensures Solvable(es, width)
  {
    SolutionsSnoc(es, e, width);
    var y :| y in Solutions(es + [e], width);
    assert y in Solutions(es, width);
  }

  /**
    Rank-nullity: a solvable system of rank `n` has exactly `2^(width - n)` solutions of
    `width` bits.
    */
  lemma {:induction false} SolutionCount(es: seq<Equation>, width: nat)
    requires ValidRows(es, width) && Solvable(es, width)
    ensures Rank(Masks(es)) <= width
    ensures |Solutions(es, width)| == Pow2(width - Rank(Masks(es)))
    decreases |es|
  {
    hide Span, Solutions, Below;
    BoundedMasks(es, width);
    RankAtMostWidth(Masks(es), width);
    if es == [] {
      NoEquations(width);
    } else {
      var init, e := es[..|es| - 1], es[|es| - 1];
      assert es == init + [e];
      PrefixSolvable(init, e, width);
      SolutionCount(init, width);
      RankOfStep(init, e, width);
      CountStep(init, e, width);
    }
  }

  lemma NoEquations(width: nat)
    ensures Solutions([], width) == Below(Pow2(width))
    ensures Rank(Masks([])) == 0
  {
  }

  lemma RankOfStep(es: seq<Equation>, e: Equation, width: nat)
    requires ValidRows(es, width) && ValidRow(e, width)
    ensures ValidRows(es + [e], width)
    ensures Rank(Masks(es + [e])) == Rank(Masks(es)) + (if e.mask in Span(Masks(es)) then 0 else 1)
  {
    MasksSnoc(es, e);
    RankSnoc(Masks(es), e.mask);
  }

  lemma RankSnoc(rows: seq<nat>, r: nat)
    ensures Rank(rows + [r]) == Rank(rows) + (if r in Span(rows) then 0 else 1)
  {
    assert (rows + [r])[..|rows|] == rows;
  }

  lemma CountStep(es: seq<Equation>, e: Equation, width: nat)
    requires ValidRows(es, width) && ValidRow(e, width) && Solvable(es + [e], width)
    ensures if e.mask in Span(Masks(es)) then |Solutions(es + [e], width)| == |Solutions(es, width)|
            else |Solutions(es, width)| == 2 * |Solutions(es + [e], width)|
  {
    if e.mask in Span(Masks(es)) {
      DependentAllOrNothing(es, e, width);
    } else {
      IndependentHalves(es, e, width);
    }
  }

  lemma BoundedMasks(es: seq<Equation>, width: nat)
    requires ValidRows(es, width)
    ensures Bounded(Masks(es), width)
  {
    forall i | 0 <= i < |es| ensures Masks(es)[i] < Pow2(width) { assert es[i] in es; }
  }

  /** A solvable system has a unique solution exactly when its rank is the width. */
  lemma UniqueIffFullRank(es: seq<Equation>, width: nat)
    requires ValidRows(es, width) && Solvable(es, width)
    ensures Rank(Masks(es)) == width <==> |Solutions(es, width)| == 1
  {
    SolutionCount(es, width);
    if |Solutions(es, width)| == 1 {
      Pow2Injective(width - Rank(Masks(es)), 0);
    }
  }
}
