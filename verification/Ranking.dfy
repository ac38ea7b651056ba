/**
  Stable sorting by a tuple key, as Python's `sort(key=...)` does: an integer first, then byte
  strings compared one after the other.
  */
module Ranking {
  import opened Digits
  import opened Lex

  datatype Ranked<T> = Ranked(major: int, parts: seq<Bytes>, value: T)

  predicate PartsLess(a: seq<Bytes>, b: seq<Bytes>) {
    b != [] && (a == [] || Less(a[0], b[0]) || (a[0] == b[0] && PartsLess(a[1..], b[1..])))
  }

  predicate RankLess<T>(a: Ranked<T>, b: Ranked<T>) {
    a.major < b.major || (a.major == b.major && PartsLess(a.parts, b.parts))
  }

  /** The first parts that differ decide, and a missing part comes first. */
  ghost predicate PartDiffersBelow(a: seq<Bytes>, b: seq<Bytes>, n: nat) {
    n <= |a| && n < |b| && a[..n] == b[..n] && (n == |a| || Less(a[n], b[n]))
  }

  /** Tuples are ordered by their first difference. */
  lemma {:induction false} PartsLessIffFirstDifference(a: seq<Bytes>, b: seq<Bytes>)
    ensures PartsLess(a, b) <==> exists n :: PartDiffersBelow(a, b, n)
  {
    hide Less;
    if a != [] && b != [] {
      PartsLessIffFirstDifference(a[1..], b[1..]);
      if n: nat :| PartDiffersBelow(a[1..], b[1..], n) && a[0] == b[0] {
        assert a[..n + 1] == [a[0]] + a[1..][..n] && b[..n + 1] == [b[0]] + b[1..][..n];
        assert PartDiffersBelow(a, b, n + 1);
      }
      if n: nat :| PartDiffersBelow(a, b, n) && n > 0 {
        assert a[1..][..n - 1] == a[..n][1..] && b[1..][..n - 1] == b[..n][1..];
        assert a[0] == a[..n][0] && b[0] == b[..n][0];
        assert PartDiffersBelow(a[1..], b[1..], n - 1);
      }
      if Less(a[0], b[0]) { assert PartDiffersBelow(a, b, 0); }
    } else if b != [] {
      assert PartDiffersBelow(a, b, 0);
    }
  }

  lemma {:induction false} PartsTotal(a: seq<Bytes>, b: seq<Bytes>)
    ensures PartsLess(a, b) || a == b || PartsLess(b, a)
  {
    if a != [] && b != [] {
      LessTotal(a[0], b[0]);
      PartsTotal(a[1..], b[1..]);
      assert a == [a[0]] + a[1..] && b == [b[0]] + b[1..];
    }
  }

  lemma {:induction false} PartsAsymmetric(a: seq<Bytes>, b: seq<Bytes>)
    ensures !(PartsLess(a, b) && PartsLess(b, a))
    ensures !PartsLess(a, a)
    decreases |a|, |b|
  {
    if a != [] {
      LessAsymmetric(a[0], a[0]);
      PartsAsymmetric(a[1..], a[1..]);
      if b != [] {
        LessAsymmetric(a[0], b[0]);
        PartsAsymmetric(a[1..], b[1..]);
      }
    }
  }

  lemma {:induction false} PartsTransitive(a: seq<Bytes>, b: seq<Bytes>, c: seq<Bytes>)
    requires PartsLess(a, b) && PartsLess(b, c)
    ensures PartsLess(a, c)
  {
    if a != [] {
      if Less(a[0], b[0]) && Less(b[0], c[0]) { LessTransitive(a[0], b[0], c[0]); }
      if a[0] == b[0] == c[0] && PartsLess(a[1..], b[1..]) && PartsLess(b[1..], c[1..]) {
        PartsTransitive(a[1..], b[1..], c[1..]);
      }
    }
  }

  /** Not-greater-than is transitive. */
  lemma NotGreaterTransitive<T>(a: Ranked<T>, b: Ranked<T>, c: Ranked<T>)
    requires !RankLess(b, a) && !RankLess(c, b)
    ensures !RankLess(c, a)
    ensures RankLess(a, b) || RankLess(b, c) ==> RankLess(a, c)
  {
    hide PartsLess;
    PartsTotal(a.parts, b.parts);
    PartsTotal(b.parts, c.parts);
    PartsAsymmetric(a.parts, c.parts);
    if PartsLess(a.parts, b.parts) && PartsLess(b.parts, c.parts) {
      PartsTransitive(a.parts, b.parts, c.parts);
    }
  }

  lemma RankAsymmetric<T>(a: Ranked<T>, b: Ranked<T>)
    ensures !(RankLess(a, b) && RankLess(b, a)) && !RankLess(a, a)
  {
    PartsAsymmetric(a.parts, b.parts);
  }

  // ----- the sort -----

  function InsertRanked<T>(s: seq<Ranked<T>>, x: Ranked<T>): (r: seq<Ranked<T>>)
    ensures |r| == |s| + 1
  {
    if s == [] then [x]
    else if RankLess(x, s[|s| - 1]) then InsertRanked(s[..|s| - 1], x) + [s[|s| - 1]]
    else s + [x]
  }

  function SortRanked<T>(s: seq<Ranked<T>>): (r: seq<Ranked<T>>)
    ensures |r| == |s|
  {
    if s == [] then [] else InsertRanked(SortRanked(s[..|s| - 1]), s[|s| - 1])
  }

  predicate Ordered<T>(s: seq<Ranked<T>>) {
    forall i, j :: 0 <= i < j < |s| ==> !RankLess(s[j], s[i])
  }

  lemma {:induction false} InsertRankedMembers<T>(s: seq<Ranked<T>>, x: Ranked<T>)
    ensures multiset(InsertRanked(s, x)) == multiset(s) + multiset{x}
  {
    if s != [] {
      var init, last := s[..|s| - 1], s[|s| - 1];
      assert s == init + [last];
      if RankLess(x, last) { InsertRankedMembers(init, x); }
    }
  }

  /** Sorting permutes. */
  lemma {:induction false} SortRankedPermutes<T>(s: seq<Ranked<T>>)
    ensures multiset(SortRanked(s)) == multiset(s)
  {
    if s != [] {
      var init, last := s[..|s| - 1], s[|s| - 1];
      assert s == init + [last];
      SortRankedPermutes(init);
      InsertRankedMembers(SortRanked(init), last);
    }
  }

  lemma {:induction false} InsertOrdered<T>(s: seq<Ranked<T>>, x: Ranked<T>)
    requires Ordered(s)
    ensures Ordered(InsertRanked(s, x))
  {
    hide RankLess;
    if s != [] {
      var init, last := s[..|s| - 1], s[|s| - 1];
      var r := InsertRanked(s, x);
      if RankLess(x, last) {
        InsertOrdered(init, x);
        InsertRankedMembers(init, x);
        RankAsymmetric(x, last);
        forall i | 0 <= i < |init| + 1 ensures !RankLess(last, r[i]) {
          assert r[i] in multiset(InsertRanked(init, x));
          assert r[i] == x || r[i] in init;
        }
      } else {
        forall i | 0 <= i < |s| ensures !RankLess(x, s[i]) {
          if i < |s| - 1 { NotGreaterTransitive(s[i], last, x); }
        }
      }
    }
  }

  /** Sorting orders. */
  lemma {:induction false} SortOrdered<T>(s: seq<Ranked<T>>)
    ensures Ordered(SortRanked(s))
  {
    if s != [] {
      SortOrdered(s[..|s| - 1]);
      InsertOrdered(SortRanked(s[..|s| - 1]), s[|s| - 1]);
    }
  }

  /** What is in order stays as it is. */
  lemma {:induction false} SortOfOrdered<T>(s: seq<Ranked<T>>)
    requires Ordered(s)
    ensures SortRanked(s) == s
  {
    if s != [] {
      var init, last := s[..|s| - 1], s[|s| - 1];
      assert s == init + [last];
      SortOfOrdered(init);
      if init != [] { assert !RankLess(s[|s| - 1], s[|init| - 1]); }
    }
  }

  /** Ordered, and no two elements rank alike. */
  predicate Strict<T>(s: seq<Ranked<T>>) {
    forall i, j :: 0 <= i < j < |s| ==> RankLess(s[i], s[j])
  }

  /** Two strictly ordered lists with the same members are the same list. */
  lemma {:induction false} StrictUnique<T(!new)>(a: seq<Ranked<T>>, b: seq<Ranked<T>>)
    requires Strict(a) && Strict(b) && SameMembers(a, b)
    ensures a == b
  {
    hide RankLess;
    EmptyTogether(a, b);
    if a != [] {
      var x, y := a[|a| - 1], b[|b| - 1];
      assert x in b && y in a;
      var i :| 0 <= i < |b| && b[i] == x;
      var j :| 0 <= j < |a| && a[j] == y;
      RankAsymmetric(x, y);
      assert x == y;
      DropLast(a); DropLast(b);
      var a', b' := a[..|a| - 1], b[..|b| - 1];
      forall z ensures z in a' <==> z in b' { assert z in a <==> z in b; }
      StrictUnique(a', b');
      assert a == a' + [x] && b == b' + [x];
    }
  }

  lemma DropLast<T(!new)>(a: seq<Ranked<T>>)
    requires Strict(a) && a != []
    ensures forall x :: x in a[..|a| - 1] <==> x in a && x != a[|a| - 1]
  {
    hide RankLess;
    var n := |a| - 1;
    assert a == a[..n] + [a[n]];
    forall i | 0 <= i < n ensures a[i] != a[n] { RankAsymmetric(a[i], a[n]); }
  }

  // ----- the values behind the ranks -----

  function Unkeyed<T>(s: seq<Ranked<T>>): (refs: seq<T>)
    ensures |refs| == |s| && forall i :: 0 <= i < |s| ==> refs[i] == s[i].value
  {
    seq(|s|, i requires 0 <= i < |s| => s[i].value)
  }

  lemma {:induction false} InsertValues<T>(s: seq<Ranked<T>>, x: Ranked<T>)
    ensures multiset(Unkeyed(InsertRanked(s, x))) == multiset(Unkeyed(s)) + multiset{x.value}
  {
    hide RankLess;
    if s == [] {
      assert Unkeyed([x]) == [x.value];
    } else {
      var init, last := s[..|s| - 1], s[|s| - 1];
      UnkeyedSnoc(init, last);
      assert s == init + [last];
      if RankLess(x, last) {
        InsertValues(init, x);
        UnkeyedSnoc(InsertRanked(init, x), last);
      } else {
        UnkeyedSnoc(s, x);
      }
    }
  }

  lemma UnkeyedSnoc<T>(s: seq<Ranked<T>>, x: Ranked<T>)
    ensures Unkeyed(s + [x]) == Unkeyed(s) + [x.value]
  {
  }

  lemma {:induction false} SortValues<T>(s: seq<Ranked<T>>)
    ensures multiset(Unkeyed(SortRanked(s))) == multiset(Unkeyed(s))
  {
    if s != [] {
      var init, last := s[..|s| - 1], s[|s| - 1];
      assert s == init + [last];
      UnkeyedSnoc(init, last);
      SortValues(init);
      InsertValues(SortRanked(init), last);
    }
  }
}
