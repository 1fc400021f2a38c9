/** Option, arithmetic and sequence helpers shared by every other module. */
module Base {

  datatype Option<+T> = None | Some(value: T) {
    function GetOr(default: T): T {
      if Some? then value else default
    }
  }

  function Max(a: int, b: int): int { if a < b then b else a }

  function Min(a: int, b: int): int { if a < b then a else b }

  function RMax(a: real, b: real): real { if a < b then b else a }

  function RMin(a: real, b: real): real { if a < b then a else b }

  /** The least integer not below `x` (JavaScript's Math.ceil). */
  function Ceil(x: real): int { -((-x).Floor) }

  /** JavaScript's Math.round: halves go up. */
  function Round(x: real): int { (x + 0.5).Floor }

  // ----- division of reals -----

  lemma QuotientTimes(x: real, d: real)
    requires d > 0.0
    ensures x / d * d == x
  {
  }

  lemma Cancel(a: real, b: real, s: real)
    requires s > 0.0
    ensures a * s <= b * s ==> a <= b
    ensures a * s < b * s ==> a < b
    ensures a * s == b * s ==> a == b
  {
    if a > b { assert (a - b) * s > 0.0; }
    if a < b { assert (b - a) * s > 0.0; }
  }

  lemma QuotientOrder(x: real, y: real, d: real)
    requires d > 0.0 && x > y
    ensures x / d > y / d
  {
    QuotientTimes(x, d);
    QuotientTimes(y, d);
    Cancel(y / d, x / d, d);
  }

  lemma ShareOfWhole(num: real, den: real)
    requires 0.0 <= num <= den && den > 0.0
    ensures 0.0 <= num / den <= 1.0 && num / den * den == num
  {
    QuotientTimes(num, den);
    Cancel(0.0, num / den, den);
    Cancel(num / den, 1.0, den);
  }

  // ----- filtering -----

  function Filter<T(!new)>(s: seq<T>, p: T -> bool): (r: seq<T>)
    ensures forall x :: x in r <==> x in s && p(x)
  {
    if s == [] then [] else (if p(s[0]) then [s[0]] else []) + Filter(s[1..], p)
  }

  lemma FilterOne<T(!new)>(x: T, p: T -> bool)
    ensures Filter([x], p) == if p(x) then [x] else []
  {
    assert [x][1..] == [];
  }

  lemma FilterCons<T(!new)>(x: T, s: seq<T>, p: T -> bool)
    ensures Filter([x] + s, p) == if p(x) then [x] + Filter(s, p) else Filter(s, p)
  {
    assert ([x] + s)[1..] == s;
    assert [] + Filter(s, p) == Filter(s, p);
  }

  lemma FilterConcat<T(!new)>(a: seq<T>, b: seq<T>, p: T -> bool)
    ensures Filter(a + b, p) == Filter(a, p) + Filter(b, p)
  {
    if a == [] {
      assert a + b == b;
    } else {
      assert (a + b)[1..] == a[1..] + b;
      FilterConcat(a[1..], b, p);
    }
  }

  /** Filtering by `q` first does not matter to a filter by `p` that implies `q`. */
  lemma FilterAbsorbs<T(!new)>(s: seq<T>, p: T -> bool, q: T -> bool)
    requires forall x :: x in s && p(x) ==> q(x)
    ensures Filter(Filter(s, q), p) == Filter(s, p)
  {
    if s != [] {
      FilterAbsorbs(s[1..], p, q);
      FilterConcat(if q(s[0]) then [s[0]] else [], Filter(s[1..], q), p);
    }
  }

  lemma FilterSame<T(!new)>(s: seq<T>, p: T -> bool, q: T -> bool)
    requires forall x :: x in s ==> (p(x) <==> q(x))
    ensures Filter(s, p) == Filter(s, q)
  {
    if s != [] { FilterSame(s[1..], p, q); }
  }

  /** Filtering twice is filtering by both tests at once. */
  lemma {:induction false} FilterTwice<T(!new)>(s: seq<T>, q: T -> bool, p: T -> bool, both: T -> bool)
    requires forall x :: x in s ==> (both(x) <==> q(x) && p(x))
    ensures Filter(Filter(s, q), p) == Filter(s, both)
  {
    if s != [] {
      FilterTwice(s[1..], q, p, both);
      FilterConcat(if q(s[0]) then [s[0]] else [], Filter(s[1..], q), p);
      if q(s[0]) { FilterOne(s[0], p); }
    }
  }

  lemma FilterKeepsAll<T(!new)>(s: seq<T>, p: T -> bool)
    requires forall x :: x in s ==> p(x)
    ensures Filter(s, p) == s
  {
    if s != [] { FilterKeepsAll(s[1..], p); }
  }

  lemma SomeMember<T>(s: seq<T>)
    ensures s != [] ==> exists x :: x in s
  {
    if s != [] { assert s[0] in s; }
  }

  /** No two positions hold the same element. */
  ghost predicate Distinct<T>(s: seq<T>) {
    forall i, j :: 0 <= i < j < |s| ==> s[i] != s[j]
  }

  lemma TakeStep<T>(s: seq<T>, i: nat)
    requires i < |s|
    ensures s[..i + 1] == s[..i] + [s[i]]
  {
  }
}
