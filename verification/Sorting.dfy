/** A stable sort, standing for JavaScript's Array.prototype.sort under a consistent comparator. */
module Sorting {
  import opened Base

  /** `before(a, b)`: the comparator puts `a` strictly ahead of `b`. */
  ghost predicate StrictWeakOrder<T(!new)>(before: (T, T) -> bool) {
    && (forall a, b :: before(a, b) ==> !before(b, a))
    && (forall a, b, c :: before(a, b) && before(b, c) ==> before(a, c))
    && (forall a, b, c :: !before(a, b) && !before(b, c) ==> !before(a, c))
  }

  /** Insert `x`, an element from further left in the input, ahead of everything not before it. */
  function Insert<T>(x: T, s: seq<T>, before: (T, T) -> bool): seq<T> {
    if s == [] then [x]
    else if before(s[0], x) then [s[0]] + Insert(x, s[1..], before)
    else [x] + s
  }

  function Sort<T>(s: seq<T>, before: (T, T) -> bool): seq<T> {
    if s == [] then [] else Insert(s[0], Sort(s[1..], before), before)
  }

  /** No element is ahead of an earlier one. */
  ghost predicate Sorted<T>(s: seq<T>, before: (T, T) -> bool) {
    forall i, j :: 0 <= i < j < |s| ==> !before(s[j], s[i])
  }

  lemma InsertMultiset<T>(x: T, s: seq<T>, before: (T, T) -> bool)
    ensures multiset(Insert(x, s, before)) == multiset{x} + multiset(s)
  {
    if s != [] {
      assert s == [s[0]] + s[1..];
      if before(s[0], x) { InsertMultiset(x, s[1..], before); }
    }
  }

  lemma {:induction false} SortMultiset<T>(s: seq<T>, before: (T, T) -> bool)
    ensures multiset(Sort(s, before)) == multiset(s)
  {
    if s != [] {
      SortMultiset(s[1..], before);
      InsertMultiset(s[0], Sort(s[1..], before), before);
      assert s == [s[0]] + s[1..];
    }
  }

  lemma SortMembers<T(!new)>(s: seq<T>, before: (T, T) -> bool)
    ensures |Sort(s, before)| == |s| && forall x :: x in Sort(s, before) <==> x in s
  {
    hide Sort;
    SortMultiset(s, before);
    assert |multiset(Sort(s, before))| == |multiset(s)|;
    forall x ensures x in Sort(s, before) <==> x in s {
      assert x in multiset(Sort(s, before)) <==> x in multiset(s);
    }
  }

  /** The comparator (a, b) => score(b) - score(a): higher scores first. */
  function ByScore<T>(score: T -> real): (T, T) -> bool {
    (a, b) => score(a) > score(b)
  }

  lemma ByScoreOrders<T(!new)>(score: T -> real)
    ensures StrictWeakOrder(ByScore(score))
  {
  }

  lemma {:induction false} InsertSorted<T(!new)>(x: T, s: seq<T>, before: (T, T) -> bool)
    requires StrictWeakOrder(before) && Sorted(s, before)
    ensures Sorted(Insert(x, s, before), before)
  {
    if s != [] && before(s[0], x) {
      InsertSorted(x, s[1..], before);
      var rest := Insert(x, s[1..], before);
      InsertMultiset(x, s[1..], before);
      forall j | 0 <= j < |rest| ensures !before(rest[j], s[0]) {
        assert rest[j] in multiset(rest);
        assert rest[j] == x || rest[j] in s[1..];
      }
    }
  }

  lemma {:induction false} SortSorted<T(!new)>(s: seq<T>, before: (T, T) -> bool)
    requires StrictWeakOrder(before)
    ensures Sorted(Sort(s, before), before)
  {
    if s != [] {
      SortSorted(s[1..], before);
      InsertSorted(s[0], Sort(s[1..], before), before);
    }
  }

  /**
   Equal elements keep their order: of the elements the comparator cannot tell from `x`, the sorted list
   holds the same ones in the same order.
   */
  lemma {:induction false} SortStable<T(!new)>(s: seq<T>, before: (T, T) -> bool, x: T)
    requires StrictWeakOrder(before)
    ensures Filter(Sort(s, before), (y: T) => !before(x, y) && !before(y, x))
         == Filter(s, (y: T) => !before(x, y) && !before(y, x))
  {
    if s != [] {
      SortStable(s[1..], before, x);
      SortSorted(s[1..], before);
      InsertStable(s[0], Sort(s[1..], before), before, x);
    }
  }

  /** What is ahead of `e` is not equal to what `e` is equal to. */
  lemma NotBothEqual<T(!new)>(e: T, y: T, x: T, before: (T, T) -> bool)
    requires StrictWeakOrder(before) && before(y, e)
    ensures before(x, y) || before(y, x) || before(x, e) || before(e, x)
  {
  }

  lemma {:induction false} InsertStable<T(!new)>(e: T, s: seq<T>, before: (T, T) -> bool, x: T)
    requires StrictWeakOrder(before)
    ensures var same := (y: T) => !before(x, y) && !before(y, x);
      Filter(Insert(e, s, before), same) == if same(e) then [e] + Filter(s, same) else Filter(s, same)
  {
    hide StrictWeakOrder, Filter;
    var same := (y: T) => !before(x, y) && !before(y, x);
    if s == [] {
      FilterCons(e, [], same);
      assert [e] + [] == [e];
    } else if before(s[0], e) {
      InsertStable(e, s[1..], before, x);
      NotBothEqual(e, s[0], x, before);
      FilterCons(s[0], Insert(e, s[1..], before), same);
      FilterCons(s[0], s[1..], same);
      assert s == [s[0]] + s[1..];
    } else {
      FilterCons(e, s, same);
    }
  }

  /** An element at two places of a permutation is at two places of the original. */
  lemma TwoPlaces<T>(a: seq<T>, b: seq<T>, i: nat, j: nat) returns (x: nat, y: nat)
    requires multiset(a) == multiset(b) && i < j < |b| && b[i] == b[j]
    ensures x < y < |a| && a[x] == a[y] == b[i]
  {
    var v := b[j];
    assert b == b[..j] + [v] + b[j + 1..];
    assert multiset(b) == multiset(b[..j]) + multiset{v} + multiset(b[j + 1..]);
    assert v in b[..j] by { assert b[..j][i] == v; }
    assert v in multiset(a);
    var m :| 0 <= m < |a| && a[m] == v;
    assert a == a[..m] + [v] + a[m + 1..];
    assert multiset(a) == multiset(a[..m]) + multiset{v} + multiset(a[m + 1..]);
    assert multiset(a)[v] >= 2;
    if v in a[..m] {
      var k :| 0 <= k < m && a[..m][k] == v;
      x, y := k, m;
    } else {
      assert v in multiset(a[m + 1..]);
      var k :| 0 <= k < |a[m + 1..]| && a[m + 1..][k] == v;
      x, y := m, m + 1 + k;
    }
  }
}
