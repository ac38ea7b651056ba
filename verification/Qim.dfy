/**
  Quantization index modulation of transform coefficients, over exact reals with the rounding
  of Python's `round`, and the majority vote of the robust profile over several coefficients.
  */
module Qim {
  import opened Wrappers
  import opened Digits
  import Ecc
  import P = Payload

  function Abs(x: real): (r: real)
    ensures r == x || r == -x
    ensures r >= 0.0
  {
    if x < 0.0 then -x else x
  }

  /** Round to the nearest integer, halves to the even one. */
  function RoundHalfEven(x: real): (q: int)
    ensures Abs(x - q as real) <= 0.5
    ensures Abs(x - q as real) == 0.5 ==> q % 2 == 0
  {
    var f := x.Floor;
    var frac := x - f as real;
    if frac < 0.5 then f
    else if frac > 0.5 then f + 1
    else if f % 2 == 0 then f else f + 1
  }

  /** The distance of a value from a lattice point. */
  function Distance(value: real, k: int, delta: real): (d: real)
    ensures d >= 0.0
  {
    Abs(value - k as real * delta)
  }

  /** `int(round(value / delta))` with the parity moved to `desired` at the smaller change. */
  function QimIndex(value: real, desired: bit, delta: real): (k: int)
    requires delta > 0.0
  {
    var q := RoundHalfEven(value / delta);
    if q % 2 == desired then q
    else
      var upErr := Distance(value, q + 1, delta);
      var downErr := Distance(value, q - 1, delta);
      if upErr < downErr then q + 1
      else if downErr < upErr then q - 1
      else if value >= 0.0 then q + 1 else q - 1
  }

  function EmbedCoefficient(value: real, desired: bit, delta: real): (r: Result<real>) {
    if delta <= 0.0 then Err else Ok(QimIndex(value, desired, delta) as real * delta)
  }

  function ExtractBit(value: real, delta: real): (r: Result<bit>) {
    if delta <= 0.0 then Err else Ok(RoundHalfEven(value / delta) % 2)
  }

  // ----- the lattice -----

  /** The same on the unit lattice. */
  function UnitDistance(t: real, k: int): (d: real)
    ensures d >= 0.0
  {
    Abs(t - k as real)
  }

  lemma Scaled(value: real, k: int, delta: real)
    requires delta > 0.0
    ensures Distance(value, k, delta) == delta * UnitDistance(value / delta, k)
  {
    var t := value / delta;
    assert value == t * delta;
    assert value - k as real * delta == (t - k as real) * delta;
  }

  lemma ScaleOrder(x: real, y: real, delta: real)
    requires delta > 0.0
    ensures x < y <==> delta * x < delta * y
    ensures x == y <==> delta * x == delta * y
  {
  }

  /** Distances compare as on the unit lattice. */
  lemma Compare(value: real, j: int, k: int, delta: real)
    requires delta > 0.0
    ensures Distance(value, j, delta) < Distance(value, k, delta) <==> UnitDistance(value / delta, j) < UnitDistance(value / delta, k)
    ensures Distance(value, j, delta) == Distance(value, k, delta) <==> UnitDistance(value / delta, j) == UnitDistance(value / delta, k)
  {
    hide Distance, UnitDistance;
    Scaled(value, j, delta);
    Scaled(value, k, delta);
    ScaleOrder(UnitDistance(value / delta, j), UnitDistance(value / delta, k), delta);
  }

  lemma CompareStep(value: real, k: int, c: real, delta: real)
    requires delta > 0.0
    ensures Distance(value, k, delta) < delta * c <==> UnitDistance(value / delta, k) < c
    ensures Distance(value, k, delta) == delta * c <==> UnitDistance(value / delta, k) == c
  {
    hide Distance, UnitDistance;
    Scaled(value, k, delta);
    ScaleOrder(UnitDistance(value / delta, k), c, delta);
  }

  lemma SignScales(value: real, delta: real)
    requires delta > 0.0
    ensures value >= 0.0 <==> value / delta >= 0.0
  {
    var t := value / delta;
    assert value == t * delta;
  }

  /** On the unit lattice, a half-way value rounds to an even point and all others to the nearest. */
  lemma RoundUnit(t: real, k: int)
    ensures UnitDistance(t, k) < 0.5 ==> RoundHalfEven(t) == k
    ensures UnitDistance(t, k) == 0.5 && k % 2 == 0 ==> RoundHalfEven(t) == k
    ensures UnitDistance(t, RoundHalfEven(t)) < 0.5 || (UnitDistance(t, RoundHalfEven(t)) == 0.5 && RoundHalfEven(t) % 2 == 0)
  {
  }

  /** `value` lies in the decision region of `b` around lattice point `k`. */
  predicate Region(value: real, k: int, b: bit, delta: real) {
    k % 2 == b && (Distance(value, k, delta) < delta * 0.5 || (b == 0 && Distance(value, k, delta) == delta * 0.5))
  }

  /** Extraction decides by the nearest lattice point; half-way values read as 0. */
  lemma ExtractRegions(value: real, delta: real, b: bit)
    requires delta > 0.0
    ensures ExtractBit(value, delta) == Ok(b) <==> exists k: int :: Region(value, k, b, delta)
  {
    hide Distance, UnitDistance, RoundHalfEven;
    var t, q := value / delta, RoundHalfEven(value / delta);
    RoundUnit(t, q);
    CompareStep(value, q, 0.5, delta);
    if q % 2 == b { assert Region(value, q, b, delta); }
    forall k: int | Region(value, k, b, delta) ensures q % 2 == b {
      RoundUnit(t, k);
      CompareStep(value, k, 0.5, delta);
    }
  }

  /** What embedding promises of an index: nearest of its parity, ties away from zero. */
  ghost predicate Nearest(value: real, b: bit, delta: real, k: int) {
    && k % 2 == b
    && forall j: int :: j % 2 == b && j != k ==> Closer(value, delta, k, j)
  }

  predicate Closer(value: real, delta: real, k: int, j: int) {
    || Distance(value, k, delta) < Distance(value, j, delta)
    || (Distance(value, k, delta) == Distance(value, j, delta) && if value >= 0.0 then j < k else k < j)
  }

  function UnitIndex(t: real, desired: bit): (k: int)
    ensures k % 2 == desired && UnitDistance(t, k) <= 1.0
    ensures forall j: int :: j % 2 == desired && j != k ==>
      (UnitDistance(t, k) < UnitDistance(t, j)
      || (UnitDistance(t, k) == UnitDistance(t, j) && if t >= 0.0 then j < k else k < j))
  {
    var q := RoundHalfEven(t);
    if q % 2 == desired then q
    else
      if UnitDistance(t, q + 1) < UnitDistance(t, q - 1) then q + 1
      else if UnitDistance(t, q - 1) < UnitDistance(t, q + 1) then q - 1
      else if t >= 0.0 then q + 1 else q - 1
  }

  lemma IndexScales(value: real, b: bit, delta: real)
    requires delta > 0.0
    ensures QimIndex(value, b, delta) == UnitIndex(value / delta, b)
  {
    hide RoundHalfEven, Distance, UnitDistance;
    var q := RoundHalfEven(value / delta);
    Compare(value, q + 1, q - 1, delta);
    Compare(value, q - 1, q + 1, delta);
    SignScales(value, delta);
  }

  /**
    The embedded index has the bit's parity, moves the value by at most one step, and is nearer
    than every other index of that parity; between two equally near ones it is the one away
    from zero.
    */
  lemma EmbedNearest(value: real, b: bit, delta: real)
    requires delta > 0.0
    ensures var k := QimIndex(value, b, delta);
      Nearest(value, b, delta, k) && Distance(value, k, delta) <= delta
  {
    hide RoundHalfEven, Distance, UnitDistance, QimIndex, UnitIndex;
    var k := QimIndex(value, b, delta);
    IndexScales(value, b, delta);
    CompareStep(value, k, 1.0, delta);
    assert delta * 1.0 == delta;
    SignScales(value, delta);
    forall j: int | j % 2 == b && j != k ensures Closer(value, delta, k, j) {
      Compare(value, k, j, delta);
    }
  }

  // ----- perturbation -----

  /** The embedded coefficient. */
  function Embedded(value: real, b: bit, delta: real): (r: real)
    requires delta > 0.0
  {
    QimIndex(value, b, delta) as real * delta
  }

  /** A drift is harmless when it stays in the region of an even number of steps. */
  ghost predicate Harmless(drift: real, b: bit, delta: real) {
    exists j: int :: j % 2 == 0 && EvenRegion(drift, j, b, delta)
  }

  predicate EvenRegion(drift: real, j: int, b: bit, delta: real) {
    Distance(drift, j, delta) < delta * 0.5 || (b == 0 && Distance(drift, j, delta) == delta * 0.5)
  }

  lemma DriftDistance(k: int, j: int, drift: real, delta: real)
    ensures Distance(k as real * delta + drift, k + j, delta) == Distance(drift, j, delta)
  {
    assert (k + j) as real * delta == k as real * delta + j as real * delta;
  }

  /** Exactly when an embedded bit survives a perturbation of its coefficient. */
  lemma SurvivesIff(value: real, b: bit, drift: real, delta: real)
    requires delta > 0.0
    ensures ExtractBit(Embedded(value, b, delta) + drift, delta) == Ok(b) <==> Harmless(drift, b, delta)
  {
    hide Distance, QimIndex, ExtractBit;
    var k, v := QimIndex(value, b, delta), Embedded(value, b, delta) + drift;
    assert v == k as real * delta + drift;
    EmbedNearest(value, b, delta);
    ExtractRegions(v, delta, b);
    if i: int :| Region(v, i, b, delta) {
      DriftDistance(k, i - k, drift, delta);
      assert k + (i - k) == i && (i - k) % 2 == 0;
      assert EvenRegion(drift, i - k, b, delta);
    }
    if j: int :| j % 2 == 0 && EvenRegion(drift, j, b, delta) {
      DriftDistance(k, j, drift, delta);
      assert Region(v, k + j, b, delta);
    }
  }

  /** Below half a step every bit survives; at exactly half a step only a 0 does. */
  lemma SmallDrift(value: real, b: bit, drift: real, delta: real)
    requires delta > 0.0 && Abs(drift) <= delta / 2.0
    ensures ExtractBit(Embedded(value, b, delta) + drift, delta) == Ok(b) <==> (Abs(drift) < delta / 2.0 || b == 0)
  {
    hide ExtractBit, Embedded;
    SurvivesIff(value, b, drift, delta);
    assert delta * 0.5 == delta / 2.0;
    assert Distance(drift, 0, delta) == Abs(drift);
    if Abs(drift) < delta / 2.0 || b == 0 {
      assert EvenRegion(drift, 0, b, delta);
    } else {
      forall j: int | j % 2 == 0 ensures !EvenRegion(drift, j, b, delta) {
        if j != 0 { FarStep(drift, j, delta); }
      }
    }
  }

  lemma FarStep(drift: real, j: int, delta: real)
    requires delta > 0.0 && Abs(drift) <= delta / 2.0 && (j >= 2 || j <= -2)
    ensures Distance(drift, j, delta) > delta * 0.5
  {
    var step := j as real;
    if j >= 2 {
      ScaleReal(step - 2.0, delta);
      assert (step - 2.0) * delta == step * delta - 2.0 * delta;
      assert step * delta >= 2.0 * delta;
    } else {
      ScaleReal(-2.0 - step, delta);
      assert (-2.0 - step) * delta == -2.0 * delta - step * delta;
      assert step * delta <= -2.0 * delta;
    }
  }

  lemma ScaleReal(x: real, delta: real)
    requires x >= 0.0 && delta > 0.0
    ensures x * delta >= 0.0
  {
  }

  /** How far a received coefficient is from what was embedded. */
  function Drift(value: real, received: real, b: bit, delta: real): (d: real)
    requires delta > 0.0
    ensures Embedded(value, b, delta) + d == received
  {
    received - Embedded(value, b, delta)
  }

  /** A received coefficient reads as the bit embedded in it exactly when its drift is harmless. */
  lemma ReadsIffHarmless(value: real, received: real, b: bit, delta: real)
    requires delta > 0.0
    ensures ExtractBit(received, delta) == Ok(b) <==> Harmless(Drift(value, received, b, delta), b, delta)
  {
    hide ExtractBit, Embedded, Harmless, Drift;
    SurvivesIff(value, b, Drift(value, received, b, delta), delta);
  }

  // ----- several coefficients -----

  /** The votes read from the selected coefficients of a block. */
  function ReadVotes(values: seq<real>, delta: real): (v: Bits)
    requires delta > 0.0
    ensures |v| == |values| && forall i :: 0 <= i < |values| ==> Ok(v[i]) == ExtractBit(values[i], delta)
  {
    seq(|values|, i requires 0 <= i < |values| => ExtractBit(values[i], delta).value)
  }

  /** 1 at every coefficient whose drift is not harmless. */
  ghost function Moves(values: seq<real>, received: seq<real>, b: bit, delta: real): (m: Bits)
    requires delta > 0.0 && |values| == |received|
    ensures |m| == |values|
    ensures forall i :: 0 <= i < |m| ==> (m[i] == 0 <==> Harmless(Drift(values[i], received[i], b, delta), b, delta))
  {
    seq(|values|, i requires 0 <= i < |values| => if Harmless(Drift(values[i], received[i], b, delta), b, delta) then 0 else 1)
  }

  /** Few enough marks that the majority vote, whose ties go to 0, still gives `b`. */
  predicate VoteHolds(marks: Bits, b: bit) {
    if b == 1 then 2 * Ecc.Count(marks, 1) < |marks| else 2 * Ecc.Count(marks, 1) <= |marks|
  }

  lemma {:induction false} CountDominated(a: Bits, x: bit, marks: Bits)
    requires |a| == |marks| && forall i :: 0 <= i < |a| && a[i] == x ==> marks[i] == 1
    ensures Ecc.Count(a, x) <= Ecc.Count(marks, 1)
  {
    if a != [] { CountDominated(a[..|a| - 1], x, marks[..|a| - 1]); }
  }

  lemma {:induction false} CountMarked(a: Bits, x: bit, marks: Bits)
    requires |a| == |marks| && forall i :: 0 <= i < |a| ==> (a[i] == x <==> marks[i] == 1)
    ensures Ecc.Count(a, x) == Ecc.Count(marks, 1)
  {
    if a != [] { CountMarked(a[..|a| - 1], x, marks[..|a| - 1]); }
  }

  /**
    Exactly when the bit of a block survives: fewer than half of its coefficients drift out of
    their safe regions, for a 0 at most half.
    */
  lemma VoteSurvivesIff(values: seq<real>, received: seq<real>, b: bit, delta: real)
    requires delta > 0.0 && |values| == |received|
    ensures Ecc.Majority(ReadVotes(received, delta)) == b <==> VoteHolds(Moves(values, received, b, delta), b)
  {
    hide Embedded, Drift, ExtractBit, Harmless, Ecc.Count;
    var votes, marks := ReadVotes(received, delta), Moves(values, received, b, delta);
    forall i | 0 <= i < |votes| ensures votes[i] == 1 - b <==> marks[i] == 1 {
      ReadsIffHarmless(values[i], received[i], b, delta);
    }
    CountMarked(votes, 1 - b, marks);
    Ecc.CountBoth(votes);
  }

  // ----- a framed payload, one carrier bit per block -----

  /** The carrier bits voted from every block. */
  function CarrierOf(blocks: seq<seq<real>>, delta: real): (c: Bits)
    requires delta > 0.0
    ensures |c| == |blocks| && forall i :: 0 <= i < |c| ==> c[i] == Ecc.Majority(ReadVotes(blocks[i], delta))
  {
    seq(|blocks|, i requires 0 <= i < |blocks| => Ecc.Majority(ReadVotes(blocks[i], delta)))
  }

  /** Blocks keep their number of coefficients. */
  predicate SameShape(values: seq<seq<real>>, received: seq<seq<real>>) {
    |values| == |received| && forall i :: 0 <= i < |values| ==> |values[i]| == |received[i]|
  }

  /** 1 at every block whose vote is lost. */
  ghost function Spoiled(carrier: Bits, values: seq<seq<real>>, received: seq<seq<real>>, delta: real): (m: Bits)
    requires delta > 0.0 && SameShape(values, received)
    ensures |m| == |values|
    ensures forall i :: 0 <= i < |m| ==>
      (m[i] == 0 <==> i < |carrier| && VoteHolds(Moves(values[i], received[i], carrier[i], delta), carrier[i]))
  {
    seq(|values|, i requires 0 <= i < |values| =>
      if i < |carrier| && VoteHolds(Moves(values[i], received[i], carrier[i], delta), carrier[i]) then 0 else 1)
  }

  /** Fewer than half of the blocks of one repetition group are spoiled. */
  predicate GroupHolds(code: Ecc.RepetitionCode, spoiled: Bits, j: nat)
    requires code.Valid() && j < Ecc.Groups(|spoiled|, code.repetitions)
  {
    2 * Ecc.Count(code.Group(spoiled, j), 1) < code.repetitions
  }

  /** Unmarked positions are read as they were sent. */
  predicate ReadsUnmarked(sent: Bits, read: Bits, marks: Bits)
    requires |marks| == |read|
  {
    forall i :: 0 <= i < |marks| && marks[i] == 0 ==> i < |sent| && read[i] == sent[i]
  }

  lemma SpoiledReads(sent: Bits, values: seq<seq<real>>, received: seq<seq<real>>, delta: real)
    requires delta > 0.0 && SameShape(values, received)
    ensures ReadsUnmarked(sent, CarrierOf(received, delta), Spoiled(sent, values, received, delta))
  {
    hide VoteHolds, Ecc.Majority;
    var marks := Spoiled(sent, values, received, delta);
    forall i | 0 <= i < |marks| && marks[i] == 0 ensures CarrierOf(received, delta)[i] == sent[i] {
      VoteSurvivesIff(values[i], received[i], sent[i], delta);
    }
  }

  /** A flipped bit of a group comes from a marked block. */
  lemma FlipIsMarked(code: Ecc.RepetitionCode, frame: Bits, read: Bits, marks: Bits, j: nat, t: nat)
    requires code.Valid() && j < |frame| && |read| == |marks| && ReadsUnmarked(Ecc.Repeat(frame, code.repetitions), read, marks)
    requires j < Ecc.Groups(|read|, code.repetitions) && t < code.repetitions
    ensures code.Group(read, j)[t] == frame[j] || code.Group(marks, j)[t] == 1
  {
    hide Ecc.Times, Ecc.Groups, Ecc.Repeat, Ecc.RepetitionCode.Group;
    Ecc.RepeatAt(frame, code.repetitions, j, t);
    Ecc.GroupAt(code, read, j, t);
    Ecc.GroupAt(code, marks, j, t);
  }

  /** A group that holds has few flips among the bits read. */
  lemma GroupKeepsBit(code: Ecc.RepetitionCode, frame: Bits, read: Bits, marks: Bits, j: nat)
    requires code.Valid() && j < |frame| && |read| == |marks| && ReadsUnmarked(Ecc.Repeat(frame, code.repetitions), read, marks)
    requires j < Ecc.Groups(|read|, code.repetitions) && GroupHolds(code, marks, j)
    ensures Ecc.FewFlips(code, read, j, frame[j])
  {
    hide Ecc.Times, Ecc.Count, Ecc.Groups, Ecc.Repeat, ReadsUnmarked, Ecc.RepetitionCode.Group;
    var got, bad := code.Group(read, j), code.Group(marks, j);
    forall t | 0 <= t < |got| && got[t] == 1 - frame[j] ensures bad[t] == 1 {
      FlipIsMarked(code, frame, read, marks, j, t);
    }
    CountDominated(got, 1 - frame[j], bad);
  }

  /**
    From coefficients to payload: while each repetition group keeps more than half of its
    blocks, and a kept block the vote of its coefficients, the payload comes back.  Blocks beyond
    the frame may hold anything.
    */
  lemma PayloadSurvives(codec: P.FrameCodec, payload: Bits, values: seq<seq<real>>, received: seq<seq<real>>, delta: real)
    requires codec.ecc.Valid() && |payload| < 0x1_0000 && codec.maxScan >= 0 && delta > 0.0
    requires SameShape(values, received) && Ecc.Times(|P.FrameBits(payload)|, codec.ecc.repetitions) <= |values|
    requires var sent := Ecc.Repeat(P.FrameBits(payload), codec.ecc.repetitions);
      forall j :: (0 <= j < |P.FrameBits(payload)| && j < Ecc.Groups(|values|, codec.ecc.repetitions)
                   ==> GroupHolds(codec.ecc, Spoiled(sent, values, received, delta), j))
    ensures P.Unframe(codec.ecc.Decoded(CarrierOf(received, delta)), codec.maxScan) == Ok((payload, 0))
  {
    hide P.FrameBits, Ecc.Times, Ecc.Groups, GroupHolds, Ecc.FewFlips, P.Unframe;
    var frame, read := P.FrameBits(payload), CarrierOf(received, delta);
    var sent := Ecc.Repeat(frame, codec.ecc.repetitions);
    SpoiledReads(sent, values, received, delta);
    forall j | 0 <= j < |frame| && j < Ecc.Groups(|values|, codec.ecc.repetitions)
      ensures Ecc.FewFlips(codec.ecc, read, j, frame[j])
    {
      GroupKeepsBit(codec.ecc, frame, read, Spoiled(sent, values, received, delta), j);
    }
    P.FrameSurvivesNoise(codec, payload, read);
  }

  lemma NoStep(value: real, delta: real)
    ensures ExtractBit(value, delta).Ok? <==> delta > 0.0
  {
  }

  /** The robust profile: which coefficients of an 8x8 block carry the bit. */
  datatype RobustProfile = RobustProfile(coefficients: seq<(nat, nat)>) {

    predicate Valid() {
      && coefficients != []
      && (forall i :: 0 <= i < |coefficients| ==> coefficients[i].0 < 8 && coefficients[i].1 < 8 && coefficients[i] != (0, 0))
      && forall i, j :: 0 <= i < j < |coefficients| ==> coefficients[i] != coefficients[j]
    }

    /** The selected coefficients, in profile order. */
    function Selected(coeff: array2<real>): (s: seq<real>)
      requires Valid() && coeff.Length0 == coeff.Length1 == 8
      reads coeff
      ensures |s| == |coefficients|
      ensures forall i :: 0 <= i < |s| ==> s[i] == coeff[coefficients[i].0, coefficients[i].1]
    {
      seq(|coefficients|, i requires 0 <= i < |coefficients| reads coeff => coeff[coefficients[i].0, coefficients[i].1])
    }

    /** Embed one bit into every selected coefficient; the others, the mean among them, stay. */
    method EmbedBlock(coeff: array2<real>, b: bit, delta: real) returns (ok: bool)
      requires Valid() && coeff.Length0 == coeff.Length1 == 8
      modifies coeff
      ensures ok <==> delta > 0.0
      ensures ok ==> forall i :: (0 <= i < |coefficients| ==>
        Selected(coeff)[i] == Embedded(old(Selected(coeff))[i], b, delta))
      ensures forall u, v :: (0 <= u < 8 && 0 <= v < 8 && (!ok || (u, v) !in coefficients) ==>
        coeff[u, v] == old(coeff[u, v]))
    {
      if delta <= 0.0 {
        return false;
      }
      ghost var before := Selected(coeff);
      for n := 0 to |coefficients|
        invariant forall i :: 0 <= i < n ==> Selected(coeff)[i] == Embedded(before[i], b, delta)
        invariant forall i :: n <= i < |coefficients| ==> Selected(coeff)[i] == before[i]
        invariant forall u, v :: (0 <= u < 8 && 0 <= v < 8 && (u, v) !in coefficients ==>
          coeff[u, v] == old(coeff[u, v]))
      {
        var (u, v) := coefficients[n];
        assert coeff[u, v] == before[n];
        coeff[u, v] := EmbedCoefficient(coeff[u, v], b, delta).value;
      }
      ok := true;
    }

    method ExtractBlock(coeff: array2<real>, delta: real) returns (r: Result<bit>)
      requires Valid() && coeff.Length0 == coeff.Length1 == 8
      ensures r == if delta > 0.0 then Ok(Ecc.Majority(ReadVotes(Selected(coeff), delta))) else Err
    {
      hide ExtractBit;
      var votes: Bits := [];
      ghost var all := if delta > 0.0 then ReadVotes(Selected(coeff), delta) else [];
      for n := 0 to |coefficients|
        invariant delta > 0.0 || n == 0
        invariant |votes| == n && (delta > 0.0 ==> votes == all[..n])
      {
        var (u, v) := coefficients[n];
        NoStep(coeff[u, v], delta);
        var vote :- ExtractBit(coeff[u, v], delta);
        votes := votes + [vote];
      }
      var ones := Ecc.Ones(votes);
      assert votes == all;
      r := Ok(if ones * 2 > |votes| then 1 else 0);
    }
  }
}
