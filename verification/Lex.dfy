/** Lexicographic order on byte strings, the order of Python's `bytes` comparison, and sorting by it. */
module Lex {
  import opened Digits

  predicate Less(a: Bytes, b: Bytes) {
    b != [] && (a == [] || a[0] < b[0] || (a[0] == b[0] && Less(a[1..], b[1..])))
  }

  /** `a` ends, or has the smaller byte, where the two first differ. */
  ghost predicate DiffersBelow(a: Bytes, b: Bytes, n: nat) {
    n <= |a| && n < |b| && a[..n] == b[..n] && (n == |a| || a[n] < b[n])
  }

  /** The smaller of two byte strings is a proper prefix, or has the smaller byte at the first difference. */
  lemma {:induction false} LessIffFirstDifference(a: Bytes, b: Bytes)
    ensures Less(a, b) <==> exists n :: DiffersBelow(a, b, n)
  {
    if a != [] && b != [] {
      LessIffFirstDifference(a[1..], b[1..]);
      if n: nat :| DiffersBelow(a[1..], b[1..], n) && a[0] == b[0] {
        assert a[..n + 1] == [a[0]] + a[1..][..n] && b[..n + 1] == [b[0]] + b[1..][..n];
        assert DiffersBelow(a, b, n + 1);
      }
      if n: nat :| DiffersBelow(a, b, n) && n > 0 {
        assert a[1..][..n - 1] == a[..n][1..] && b[1..][..n - 1] == b[..n][1..];
        assert a[0] == a[..n][0] && b[0] == b[..n][0];
        assert DiffersBelow(a[1..], b[1..], n - 1);
      }
      if a[0] < b[0] { assert DiffersBelow(a, b, 0); }
    } else if b != [] {
      assert DiffersBelow(a, b, 0);
    }
  }

  lemma {:induction false} LessTotal(a: Bytes, b: Bytes)
    ensures Less(a, b) || a == b || Less(b, a)
  {
    if a != [] && b != [] && a[0] == b[0] {
      LessTotal(a[1..], b[1..]);
      assert a == [a[0]] + a[1..] && b == [b[0]] + b[1..];
    }
  }

  lemma {:induction false} LessAsymmetric(a: Bytes, b: Bytes)
    ensures !(Less(a, b) && Less(b, a))
    ensures !Less(a, a)
  {
    if a != [] {
      LessAsymmetric(a[1..], a[1..]);
      if b != [] { LessAsymmetric(a[1..], b[1..]); }
    }
  }

  lemma {:induction false} LessTransitive(a: Bytes, b: Bytes, c: Bytes)
    requires Less(a, b) && Less(b, c)
    ensures Less(a, c)
  {
    if a != [] && a[0] == b[0] && b[0] == c[0] { LessTransitive(a[1..], b[1..], c[1..]); }
  }

  /** A list of keyed values: `key` is what the sort looks at. */
  datatype Keyed<T> = Keyed(key: Bytes, value: T)

  /** Insert after every element with a smaller or equal key. */
  function Insert<T>(s: seq<Keyed<T>>, x: Keyed<T>): (r: seq<Keyed<T>>)
    ensures |r| == |s| + 1
  {
    if s == [] then [x]
    else if Less(x.key, s[|s| - 1].key) then Insert(s[..|s| - 1], x) + [s[|s| - 1]]
    else s + [x]
  }

  /** The stable sort by key. */
  function Sort<T>(s: seq<Keyed<T>>): (r: seq<Keyed<T>>)
    ensures |r| == |s|
  {
    if s == [] then [] else Insert(Sort(s[..|s| - 1]), s[|s| - 1])
  }

  predicate Ascending<T>(s: seq<Keyed<T>>) {
    forall i :: 0 <= i < |s| - 1 ==> Less(s[i].key, s[i + 1].key)
  }

  predicate DistinctKeys<T>(s: seq<Keyed<T>>) {
    forall i, j :: 0 <= i < j < |s| ==> s[i].key != s[j].key
  }

  lemma {:induction false} InsertMembers<T>(s: seq<Keyed<T>>, x: Keyed<T>)
    ensures multiset(Insert(s, x)) == multiset(s) + multiset{x}
  {
    if s != [] {
      var init, last := s[..|s| - 1], s[|s| - 1];
      assert s == init + [last];
      if Less(x.key, last.key) { InsertMembers(init, x); }
    }
  }

  /** Sorting permutes. */
  lemma {:induction false} SortPermutes<T>(s: seq<Keyed<T>>)
    ensures multiset(Sort(s)) == multiset(s)
  {
    if s != [] {
      var init, last := s[..|s| - 1], s[|s| - 1];
      assert s == init + [last];
      SortPermutes(init);
      InsertMembers(Sort(init), last);
    }
  }

  lemma {:induction false} InsertAscending<T>(s: seq<Keyed<T>>, x: Keyed<T>)
    requires Ascending(s) && forall i :: 0 <= i < |s| ==> s[i].key != x.key
    ensures Ascending(Insert(s, x))
    ensures s != [] ==> Insert(s, x)[|s|] == if Less(x.key, s[|s| - 1].key) then s[|s| - 1] else x
  {
    if s != [] {
      var init, last := s[..|s| - 1], s[|s| - 1];
      LessTotal(x.key, last.key);
      if Less(x.key, last.key) {
        InsertAscending(init, x);
        assert init == [] ==> Insert(init, x) == [x];
        assert init != [] ==> Less(init[|init| - 1].key, last.key) by {
          if init != [] { assert s[|init| - 1] == init[|init| - 1]; }
        }
      }
    }
  }

  /** Distinct keys come out strictly ascending. */
  lemma {:induction false} SortAscending<T>(s: seq<Keyed<T>>)
    requires DistinctKeys(s)
    ensures Ascending(Sort(s))
  {
    if s != [] {
      var init, last := s[..|s| - 1], s[|s| - 1];
      SortAscending(init);
      SortPermutes(init);
      forall i | 0 <= i < |Sort(init)| ensures Sort(init)[i].key != last.key {
        assert Sort(init)[i] in multiset(Sort(init));
        assert Sort(init)[i] in multiset(init);
      }
      InsertAscending(Sort(init), last);
    }
  }

  /** A list that already ascends is left alone. */
  lemma {:induction false} SortOfAscending<T>(s: seq<Keyed<T>>)
    requires Ascending(s)
    ensures Sort(s) == s
  {
    if s != [] {
      var init, last := s[..|s| - 1], s[|s| - 1];
      SortOfAscending(init);
      if init != [] {
        assert Less(s[|init| - 1].key, s[|init|].key);
        LessAsymmetric(s[|init| - 1].key, last.key);
      }
    }
  }

  lemma {:induction false} AscendingAll<T>(s: seq<Keyed<T>>, i: nat, j: nat)
    requires Ascending(s) && i < j < |s|
    ensures Less(s[i].key, s[j].key)
    decreases j
  {
    if i < j - 1 {
      AscendingAll(s, i, j - 1);
      LessTransitive(s[i].key, s[j - 1].key, s[j].key);
    }
  }

  lemma LastIsGreatest<T>(a: seq<Keyed<T>>, x: Keyed<T>)
    requires Ascending(a) && x in a
    ensures x == a[|a| - 1] || Less(x.key, a[|a| - 1].key)
  {
    var i :| 0 <= i < |a| && a[i] == x;
    if i < |a| - 1 { AscendingAll(a, i, |a| - 1); }
  }

  ghost predicate SameMembers<T(!new)>(a: seq<T>, b: seq<T>) {
    forall x :: x in a <==> x in b
  }

  /** Two ascending lists with the same members are the same list. */
  lemma {:induction false} AscendingUnique<T(!new)>(a: seq<Keyed<T>>, b: seq<Keyed<T>>)
    requires Ascending(a) && Ascending(b) && SameMembers(a, b)
    ensures a == b
  {
    hide Less;
    EmptyTogether(a, b);
    if a != [] {
      var x := a[|a| - 1];
      assert x in b;
      var y := b[|b| - 1];
      assert y in a;
      LastIsGreatest(a, y);
      LastIsGreatest(b, x);
      LessAsymmetric(x.key, y.key);
      WithoutLast(a);
      WithoutLast(b);
      var a', b' := a[..|a| - 1], b[..|b| - 1];
      forall z ensures z in a' <==> z in b' {
        assert z in a <==> z in b;
      }
      AscendingUnique(a', b');
    }
  }

  lemma EmptyTogether<T(!new)>(a: seq<T>, b: seq<T>)
    requires SameMembers(a, b)
    ensures a == [] <==> b == []
  {
    if a != [] { assert a[0] in b; }
    if b != [] { assert b[0] in a; }
  }

  lemma WithoutLast<T(!new)>(a: seq<Keyed<T>>)
    requires Ascending(a) && a != []
    ensures a == a[..|a| - 1] + [a[|a| - 1]]
    ensures forall x :: x in a[..|a| - 1] <==> x in a && x != a[|a| - 1]
  {
    var n := |a| - 1;
    assert a == a[..n] + [a[n]];
    forall i | 0 <= i < n ensures a[i] != a[n] {
      AscendingAll(a, i, n);
      LessAsymmetric(a[i].key, a[n].key);
    }
  }

  lemma SortMembers<T(!new)>(s: seq<Keyed<T>>)
    ensures forall x :: x in Sort(s) <==> x in s
  {
    hide Sort;
    SortPermutes(s);
    forall x ensures x in Sort(s) <==> x in s {
      assert x in Sort(s) <==> x in multiset(Sort(s));
      assert x in s <==> x in multiset(s);
    }
  }

  /** Sorting distinct keys forgets the order they came in. */
  lemma SortForgetsOrder<T(!new)>(a: seq<Keyed<T>>, b: seq<Keyed<T>>)
    requires DistinctKeys(a) && DistinctKeys(b) && SameMembers(a, b)
    ensures Sort(a) == Sort(b)
  {
    hide Sort;
    SortAscending(a); SortAscending(b);
    SortMembers(a); SortMembers(b);
    forall x ensures x in Sort(a) <==> x in Sort(b) { assert x in a <==> x in b; }
    AscendingUnique(Sort(a), Sort(b));
  }
}
