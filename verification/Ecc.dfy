/** The odd repetition code with majority decoding. */
module Ecc {
  import opened Digits

  /** Number of bits equal to `b`. */
  function Count(bits: Bits, b: bit): (n: nat)
    ensures n <= |bits|
  {
    if bits == [] then 0 else Count(bits[..|bits| - 1], b) + (if bits[|bits| - 1] == b then 1 else 0)
  }

  /** It is the multiplicity of `b`. */
  lemma {:induction false} CountIsMultiplicity(bits: Bits, b: bit)
    ensures Count(bits, b) == multiset(bits)[b]
  {
    if bits != [] {
      var init, last := bits[..|bits| - 1], bits[|bits| - 1];
      assert bits == init + [last];
      CountIsMultiplicity(init, b);
    }
  }

  lemma {:induction false} CountBoth(bits: Bits)
    ensures Count(bits, 0) + Count(bits, 1) == |bits|
  {
    if bits != [] { CountBoth(bits[..|bits| - 1]); }
  }

  /** A stretch of bits that all equal `b` is counted in full. */
  lemma {:induction false} CountStretch(bits: Bits, b: bit, lo: nat, hi: nat)
    requires lo <= hi <= |bits| && forall i :: lo <= i < hi ==> bits[i] == b
    ensures Count(bits, b) >= hi - lo
  {
    if bits != [] {
      var n := |bits| - 1;
      CountStretch(bits[..n], b, if lo < n then lo else n, if hi < n then hi else n);
    }
  }

  /** `1 if ones > zeros else 0` */
  function Majority(bits: Bits): (b: bit) {
    if Count(bits, 1) > |bits| - Count(bits, 1) then 1 else 0
  }

  /** By how many votes the majority wins. */
  function Margin(bits: Bits): (m: nat) {
    if Count(bits, 1) >= Count(bits, 0) then Count(bits, 1) - Count(bits, 0) else Count(bits, 0) - Count(bits, 1)
  }

  /** The share of the votes by which the majority wins. */
  function Confidence(bits: Bits): (c: real)
    requires bits != []
  {
    Margin(bits) as real / |bits| as real
  }

  /** A bit that holds more than half of the votes wins. */
  lemma MajorityWins(bits: Bits, b: bit)
    requires 2 * Count(bits, b) > |bits|
    ensures Majority(bits) == b
  {
    CountBoth(bits);
  }

  // ----- positions in groups -----

  /** `n * r`, as repeated addition. */
  function Times(n: nat, r: nat): (p: nat) {
    n * r
  }

  lemma TimesStep(n: nat, r: nat)
    ensures Times(n + 1, r) == Times(n, r) + r
  {
  }

  lemma {:induction false} TimesMonotone(m: nat, n: nat, r: nat)
    requires m <= n
    ensures Times(m, r) <= Times(n, r)
    ensures m < n ==> Times(m, r) + r <= Times(n, r)
    decreases n
  {
    hide Times;
    if m < n {
      TimesStep(n - 1, r);
      TimesMonotone(m, n - 1, r);
    }
  }

  /** How many whole groups of `r` fit into `len`. */
  function Groups(len: nat, r: nat): (g: nat)
    requires r > 0
    ensures Times(g, r) <= len < Times(g, r) + r
  {
    var g := Quot(len, r);
    assert Times(g, r) == r * g;
    g
  }

  lemma GroupInRange(len: nat, r: nat, i: nat)
    requires r > 0 && i < Groups(len, r)
    ensures Times(i, r) + r <= len
  {
    hide Times;
    TimesMonotone(i, Groups(len, r), r);
  }

  lemma GroupCount(len: nat, r: nat, i: nat)
    requires r > 0 && Times(i, r) + r <= len
    ensures i < Groups(len, r)
  {
    hide Times;
    TimesStep(i, r);
    if Groups(len, r) <= i { TimesMonotone(Groups(len, r), i, r); }
  }

  // ----- encode -----

  function Repeat(bits: Bits, r: nat): (c: Bits)
    ensures |c| == Times(|bits|, r)
  {
    if bits == [] then []
    else
      TimesStep(|bits| - 1, r);
      Repeat(bits[..|bits| - 1], r) + seq(r, _ => bits[|bits| - 1])
  }

  /** Carrier position `j * r + t` carries bit `j`. */
  lemma {:induction false} RepeatAt(bits: Bits, r: nat, j: nat, t: nat)
    requires j < |bits| && t < r
    ensures Times(j, r) + t < |Repeat(bits, r)| && Repeat(bits, r)[Times(j, r) + t] == bits[j]
  {
    hide Times;
    var n := |bits| - 1;
    TimesStep(n, r);
    TimesMonotone(j, n, r);
    if j < n { RepeatAt(bits[..n], r, j, t); }
  }

  /** The code: repetitions are positive and odd. */
  datatype RepetitionCode = RepetitionCode(repetitions: nat) {

    predicate Valid() {
      repetitions % 2 == 1
    }

    method Encode(bits: Bits) returns (out: Bits)
      ensures out == Repeat(bits, repetitions)
    {
      out := [];
      for i := 0 to |bits|
        invariant out == Repeat(bits[..i], repetitions)
      {
        assert bits[..i + 1][..i] == bits[..i];
        out := out + seq(repetitions, _ => bits[i]);
      }
      assert bits[..|bits|] == bits;
    }

    /** The carrier bits of group `i`. */
    function Group(carrier: Bits, i: nat): (g: Bits)
      requires Valid() && i < Groups(|carrier|, repetitions)
      ensures |g| == repetitions
    {
      GroupInRange(|carrier|, repetitions, i);
      carrier[Times(i, repetitions)..Times(i, repetitions) + repetitions]
    }

    /** Majority decoding; an incomplete trailing group is ignored. */
    function Decoded(carrier: Bits): (bits: Bits)
      requires Valid()
      ensures |bits| == Groups(|carrier|, repetitions)
    {
      seq(Groups(|carrier|, repetitions), i requires 0 <= i < Groups(|carrier|, repetitions) => Majority(Group(carrier, i)))
    }

    /** How many of the first `n` groups are not unanimous. */
    function Corrected(carrier: Bits, n: nat): (c: nat)
      requires Valid() && n <= Groups(|carrier|, repetitions)
      ensures c <= n
    {
      if n == 0 then 0
      else
        var ones := Count(Group(carrier, n - 1), 1);
        Corrected(carrier, n - 1) + (if ones == 0 || ones == repetitions then 0 else 1)
    }

    /** The groups that hold both bits. */
    function Torn(carrier: Bits): (groups: set<nat>)
      requires Valid()
    {
      set i: nat | i < Groups(|carrier|, repetitions) && 0 in Group(carrier, i) && 1 in Group(carrier, i)
    }

    /** The bit held by more than half of the group, and the share of the votes by which it wins. */
    ghost predicate Voted(group: Bits, b: bit, confidence: real)
      requires Valid()
    {
      && 2 * multiset(group)[b] > repetitions
      && confidence == (2 * multiset(group)[b] - repetitions) as real / repetitions as real
    }

    /** The report is about the whole groups of the carrier, one after the other. */
    ghost predicate Reports(carrier: Bits, report: DecodeReport)
      requires Valid()
    {
      && report.repetitions == repetitions
      && |report.decoded| == |report.confidences| == report.groupsSeen == Groups(|carrier|, repetitions)
      && report.correctedGroups == |Torn(carrier)|
      && forall i :: 0 <= i < report.groupsSeen ==> Voted(Group(carrier, i), report.decoded[i], report.confidences[i])
    }

    lemma MajorityVoted(group: Bits)
      requires Valid() && |group| == repetitions
      ensures Voted(group, Majority(group), Confidence(group))
    {
      hide Count;
      CountBoth(group);
      CountIsMultiplicity(group, 0);
      CountIsMultiplicity(group, 1);
    }

    /** The torn groups among the first `n`. */
    function TornBefore(carrier: Bits, n: nat): (groups: set<nat>)
      requires Valid() && n <= Groups(|carrier|, repetitions)
    {
      set i: nat | i < n && 0 in Group(carrier, i) && 1 in Group(carrier, i)
    }

    lemma {:induction false} CorrectedAreTorn(carrier: Bits, n: nat)
      requires Valid() && n <= Groups(|carrier|, repetitions)
      ensures Corrected(carrier, n) == |TornBefore(carrier, n)|
    {
      hide Group, Count, Groups;
      if n > 0 {
        CorrectedAreTorn(carrier, n - 1);
        TornIff(Group(carrier, n - 1));
        TornStep(carrier, n);
        hide TornBefore;
      }
    }

    lemma TornStep(carrier: Bits, n: nat)
      requires Valid() && 0 < n <= Groups(|carrier|, repetitions)
      ensures var g, before := Group(carrier, n - 1), TornBefore(carrier, n - 1);
        n - 1 !in before && TornBefore(carrier, n) == before + (if 0 in g && 1 in g then {n - 1} else {})
    {
      hide Group, Groups;
    }

    lemma TornIff(group: Bits)
      ensures 0 in group && 1 in group <==> Count(group, 1) !in {0, |group|}
    {
      hide Count;
      CountBoth(group);
      CountIsMultiplicity(group, 0);
      CountIsMultiplicity(group, 1);
    }

    method Decode(carrier: Bits) returns (report: DecodeReport)
      requires Valid()
      ensures Reports(carrier, report)
      ensures report.decoded == Decoded(carrier) && report.groupsSeen == |report.decoded|
      ensures report.correctedGroups == Corrected(carrier, report.groupsSeen)
      ensures |report.confidences| == report.groupsSeen
      ensures forall i :: 0 <= i < report.groupsSeen ==> report.confidences[i] == Confidence(Group(carrier, i))
      ensures forall i :: 0 <= i < report.groupsSeen ==> 0.0 <= report.confidences[i] <= 1.0
      ensures forall i :: 0 <= i < report.groupsSeen ==>
        (report.confidences[i] == 1.0 <==> Count(Group(carrier, i), 1) in {0, repetitions})
    {
      hide Times, Count, Group, Voted;
      var groups := Groups(|carrier|, repetitions);
      var decoded: Bits := [];
      var confidences: seq<real> := [];
      var corrected := 0;
      for i := 0 to groups
        invariant |decoded| == |confidences| == i && corrected == Corrected(carrier, i)
        invariant forall j :: 0 <= j < i ==> decoded[j] == Majority(Group(carrier, j))
        invariant forall j :: 0 <= j < i ==> confidences[j] == Confidence(Group(carrier, j))
      {
        var chunk := Group(carrier, i);
        var ones := Ones(chunk);
        var zeros := repetitions - ones;
        decoded := decoded + [if ones > zeros then 1 else 0];
        var margin := if ones >= zeros then ones - zeros else zeros - ones;
        CountBoth(chunk);
        confidences := confidences + [margin as real / repetitions as real];
        if !(ones == 0 || zeros == 0) {
          corrected := corrected + 1;
        }
      }
      assert decoded == Decoded(carrier);
      forall j | 0 <= j < groups
        ensures 0.0 <= confidences[j] <= 1.0 && (confidences[j] == 1.0 <==> Count(Group(carrier, j), 1) in {0, repetitions})
      {
        ConfidenceRange(Group(carrier, j));
      }
      hide Majority, Confidence, Margin;
      report := DecodeReport(decoded, repetitions, groups, corrected, confidences);
      assert corrected == |Torn(carrier)| by {
        CorrectedAreTorn(carrier, groups);
        assert TornBefore(carrier, groups) == Torn(carrier);
      }
      forall j | 0 <= j < groups ensures Voted(Group(carrier, j), decoded[j], confidences[j]) { MajorityVoted(Group(carrier, j)); }
    }
  }

  /** The confidence is 1 for a unanimous group only. */
  lemma ConfidenceRange(bits: Bits)
    requires bits != []
    ensures 0.0 <= Confidence(bits) <= 1.0
    ensures Confidence(bits) == 1.0 <==> Count(bits, 1) in {0, |bits|}
  {
    hide Count;
    CountBoth(bits);
    MarginRange(Margin(bits), |bits|);
  }

  lemma MarginRange(margin: nat, r: nat)
    requires margin <= r && r > 0
    ensures 0.0 <= margin as real / r as real <= 1.0
    ensures margin as real / r as real == 1.0 <==> margin == r
  {
  }

  /** `sum(chunk)` */
  method Ones(chunk: Bits) returns (n: nat)
    ensures n == Count(chunk, 1)
  {
    n := 0;
    for i := 0 to |chunk|
      invariant n == Count(chunk[..i], 1)
    {
      assert chunk[..i + 1][..i] == chunk[..i];
      n := n + chunk[i];
    }
    assert chunk[..|chunk|] == chunk;
  }

  datatype DecodeReport = DecodeReport(decoded: Bits, repetitions: nat, groupsSeen: nat, correctedGroups: nat, confidences: seq<real>)

  // ----- alignment -----

  /** The bit `b` holds more than half of carrier group `i`. */
  predicate CarriesBit(code: RepetitionCode, carrier: Bits, i: nat, b: bit)
    requires code.Valid()
  {
    i < Groups(|carrier|, code.repetitions) && 2 * Count(code.Group(carrier, i), b) > code.repetitions
  }

  /** The carrier groups from `k` on carry `frame`. */
  predicate Carries(code: RepetitionCode, carrier: Bits, k: nat, frame: Bits)
    requires code.Valid()
  {
    forall j :: 0 <= j < |frame| ==> CarriesBit(code, carrier, k + j, frame[j])
  }

  lemma CarriedBitsDecode(code: RepetitionCode, carrier: Bits, k: nat, frame: Bits)
    requires code.Valid() && Carries(code, carrier, k, frame) && frame != []
    ensures k + |frame| <= |code.Decoded(carrier)|
    ensures code.Decoded(carrier)[k..k + |frame|] == frame
  {
    var d := code.Decoded(carrier);
    assert CarriesBit(code, carrier, k + (|frame| - 1), frame[|frame| - 1]);
    forall j | 0 <= j < |frame| ensures d[k + j] == frame[j] {
      assert CarriesBit(code, carrier, k + j, frame[j]);
      MajorityWins(code.Group(carrier, k + j), frame[j]);
    }
  }

  /**
    A carrier shifted by `a` groups and `m` bits: junk of that length, the repeated frame, then
    any trailing bits, at least enough to complete the last group when `2m > r`.
    */
  lemma ShiftedCarries(code: RepetitionCode, junk: Bits, frame: Bits, trail: Bits, a: nat, m: nat)
    requires code.Valid() && m < code.repetitions && |junk| == Times(a, code.repetitions) + m
    requires 2 * m > code.repetitions ==> |trail| >= code.repetitions - m
    ensures Carries(code, junk + Repeat(frame, code.repetitions) + trail,
                    if 2 * m < code.repetitions then a else a + 1, frame)
  {
    forall j | 0 <= j < |frame|
      ensures CarriesBit(code, junk + Repeat(frame, code.repetitions) + trail,
                         (if 2 * m < code.repetitions then a else a + 1) + j, frame[j])
    {
      ShiftedCarriesBit(code, junk, frame, trail, a, m, j);
    }
  }

  lemma ShiftedCarriesBit(code: RepetitionCode, junk: Bits, frame: Bits, trail: Bits, a: nat, m: nat, j: nat)
    requires code.Valid() && m < code.repetitions && |junk| == Times(a, code.repetitions) + m && j < |frame|
    requires 2 * m > code.repetitions ==> |trail| >= code.repetitions - m
    ensures CarriesBit(code, junk + Repeat(frame, code.repetitions) + trail,
                       (if 2 * m < code.repetitions then a else a + 1) + j, frame[j])
  {
    hide Times, Repeat, CarriesBit;
    var r := code.repetitions;
    var c := junk + Repeat(frame, r) + trail;
    TimesMonotone(j, |frame|, r);
    var start := |junk| + Times(j, r);
    forall i | start <= i < start + r ensures c[i] == frame[j] { RepeatAt(frame, r, j, i - start); }
    StretchCarries(code, c, a, m, j, frame[j]);
  }

  /** A stretch of equal bits that starts `m` bits into a group is carried by the group it overlaps most. */
  lemma StretchCarries(code: RepetitionCode, c: Bits, a: nat, m: nat, j: nat, b: bit)
    requires code.Valid() && m < code.repetitions
    requires var r := code.repetitions;
      var start := Times(a, r) + m + Times(j, r);
      && start + r + (if 2 * m > r then r - m else 0) <= |c|
      && forall i :: start <= i < start + r ==> c[i] == b
    ensures CarriesBit(code, c, (if 2 * m < code.repetitions then a else a + 1) + j, b)
  {
    hide Times, Groups, Count, RepetitionCode.Group;
    var r := code.repetitions;
    var k := (if 2 * m < r then a else a + 1) + j;
    GroupStart(a, j, r);
    TimesStep(a + j, r);
    GroupCount(|c|, r, k);
    var g := code.Group(c, k);
    var lo, hi := if 2 * m < r then m else 0, if 2 * m < r then r else m;
    forall t | lo <= t < hi ensures g[t] == b {
      GroupAt(code, c, k, t);
      assert c[Times(k, r) + t] == b;
    }
    CountStretch(g, b, lo, hi);
  }

  lemma GroupAt(code: RepetitionCode, carrier: Bits, i: nat, t: nat)
    requires code.Valid() && i < Groups(|carrier|, code.repetitions) && t < code.repetitions
    ensures Times(i, code.repetitions) + t < |carrier|
    ensures code.Group(carrier, i)[t] == carrier[Times(i, code.repetitions) + t]
  {
    hide Times, Groups;
    GroupInRange(|carrier|, code.repetitions, i);
  }

  lemma GroupStart(a: nat, j: nat, r: nat)
    ensures Times(a + j, r) == Times(a, r) + Times(j, r)
  {
  }

  /** Fewer than half of the carrier bits of group `j` differ from `b`. */
  predicate FewFlips(code: RepetitionCode, carrier: Bits, j: nat, b: bit)
    requires code.Valid() && j < Groups(|carrier|, code.repetitions)
  {
    2 * Count(code.Group(carrier, j), 1 - b) < code.repetitions
  }

  /** Flips that hit fewer than half of each group leave every bit carried. */
  lemma NoisyCarries(code: RepetitionCode, frame: Bits, carrier: Bits)
    requires code.Valid() && Times(|frame|, code.repetitions) <= |carrier|
    requires forall j :: 0 <= j < |frame| && j < Groups(|carrier|, code.repetitions) ==> FewFlips(code, carrier, j, frame[j])
    ensures Carries(code, carrier, 0, frame)
  {
    hide Times;
    forall j | 0 <= j < |frame|
      ensures CarriesBit(code, carrier, 0 + j, frame[j])
    {
      TimesMonotone(j, |frame|, code.repetitions);
      GroupCount(|carrier|, code.repetitions, j);
      assert FewFlips(code, carrier, j, frame[j]);
      CountBoth(code.Group(carrier, j));
    }
  }
}
