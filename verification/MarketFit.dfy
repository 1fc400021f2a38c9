/** City, zone or national cohort of each hotel and its rank in it. */
module MarketFit {
  import opened Base
  import opened Text
  import opened Sorting

  /** A catalogue hotel with its effective overall score; cityKey is the trimmed lower-case city. */
  datatype Row = Row(id: string, cityKey: string, overall: real)

  datatype Scope = City | Zone | National

  datatype Ranking = Ranking(rank: int, total: nat, percentile: real)

  datatype CohortRank = CohortRank(rank: Option<int>, total: nat, percentile: real, scope: Scope)

  // ----- ordering -----

  /** Higher overall first, ties by smaller id. */
  predicate Beats(a: Row, b: Row) {
    a.overall > b.overall || (a.overall == b.overall && StrLess(a.id, b.id))
  }

  lemma BeatsOrders()
    ensures StrictWeakOrder(Beats)
  {
    forall a, b | Beats(a, b) ensures !Beats(b, a) {
      StrLessTotal(a.id, b.id);
    }
    forall a, b, c | Beats(a, b) && Beats(b, c) ensures Beats(a, c) {
      if a.overall == b.overall == c.overall { StrLessTransitive(a.id, b.id, c.id); }
    }
    forall a, b, c | !Beats(a, b) && !Beats(b, c) ensures !Beats(a, c) {
      StrLessTotal(a.id, b.id);
      StrLessTotal(b.id, c.id);
      StrLessTotal(a.id, c.id);
      if a.overall == b.overall == c.overall && a.id != b.id && b.id != c.id {
        StrLessTransitive(c.id, b.id, a.id);
      }
    }
  }

  ghost predicate DistinctIds(pool: seq<Row>) {
    forall i, j :: 0 <= i < j < |pool| ==> pool[i].id != pool[j].id
  }

  /** findIndex by id, -1 when absent. */
  function FindIndex(s: seq<Row>, id: string): (k: int)
    ensures -1 <= k < |s|
    ensures k >= 0 ==> s[k].id == id
    ensures k == -1 ==> forall i :: 0 <= i < |s| ==> s[i].id != id
  {
    if s == [] then -1
    else if s[0].id == id then 0
    else
      var k := FindIndex(s[1..], id);
      assert forall i :: 1 <= i < |s| ==> s[i] == s[1..][i - 1];
      if k == -1 then -1 else k + 1
  }

  function Percentile(rank: int, total: nat): real {
    if total > 1 then (total - rank) as real / (total - 1) as real * 100.0 else 100.0
  }

  function RankIn(pool: seq<Row>, id: string): Ranking {
    var sorted := Sort(pool, Beats);
    var rank := FindIndex(sorted, id) + 1;
    Ranking(rank, |sorted|, Percentile(rank, |sorted|))
  }

  /** How many hotels of the pool beat `r`. */
  function Beaters(pool: seq<Row>, r: Row): nat {
    |Filter(pool, (x: Row) => Beats(x, r))|
  }

  // ----- the sorted position is the counting rank -----

  lemma {:induction false} FilterCounts<T(!new)>(s: seq<T>, p: T -> bool, x: T)
    ensures multiset(Filter(s, p))[x] == if p(x) then multiset(s)[x] else 0
  {
    if s != [] {
      FilterCounts(s[1..], p, x);
      assert s == [s[0]] + s[1..];
    }
  }

  lemma FilterSizePermutes<T(!new)>(a: seq<T>, b: seq<T>, p: T -> bool)
    requires multiset(a) == multiset(b)
    ensures |Filter(a, p)| == |Filter(b, p)|
  {
    forall x ensures multiset(Filter(a, p))[x] == multiset(Filter(b, p))[x] {
      FilterCounts(a, p, x);
      FilterCounts(b, p, x);
    }
    assert multiset(Filter(a, p)) == multiset(Filter(b, p));
    assert |multiset(Filter(a, p))| == |Filter(a, p)|;
  }

  lemma FilterNone<T(!new)>(s: seq<T>, p: T -> bool)
    requires forall i :: 0 <= i < |s| ==> !p(s[i])
    ensures Filter(s, p) == []
  {
    if s != [] { FilterNone(s[1..], p); }
  }

  lemma {:induction false} PermutedIdsDistinct(a: seq<Row>, b: seq<Row>)
    requires multiset(a) == multiset(b) && DistinctIds(a)
    ensures DistinctIds(b)
  {
    forall i, j | 0 <= i < j < |b| ensures b[i].id != b[j].id {
      assert b[i] in multiset(b) && b[j] in multiset(b);
      var (m, n) := (IndexOfRow(a, b[i]), IndexOfRow(a, b[j]));
      if m == n {
        var x, y := TwoPlaces(a, b, i, j);
        NotTwice(a, x, y);
      }
      assert m < n || n < m;
    }
  }

  lemma NotTwice(a: seq<Row>, x: nat, y: nat)
    requires DistinctIds(a) && x < y < |a|
    ensures a[x] != a[y]
  {
  }

  function IndexOfRow(s: seq<Row>, r: Row): (k: nat)
    requires r in s
    ensures k < |s| && s[k] == r
  {
    if s[0] == r then 0 else IndexOfRow(s[1..], r) + 1
  }

  /** In a sorted list with distinct ids exactly the elements at earlier positions beat this one. */
  lemma EarlierBeat(s: seq<Row>, k: nat, i: nat)
    requires Sorted(s, Beats) && DistinctIds(s) && k < |s| && i < |s|
    ensures Beats(s[i], s[k]) <==> i < k
  {
    StrLessTotal(s[i].id, s[k].id);
    hide StrLess;
    if i < k { assert !Beats(s[k], s[i]); }
    if k < i { assert !Beats(s[i], s[k]); }
  }

  lemma SplitCount(s: seq<Row>, k: nat, p: Row -> bool)
    requires k <= |s| && forall i :: 0 <= i < |s| ==> (p(s[i]) <==> i < k)
    ensures |Filter(s, p)| == k
  {
    hide Filter;
    FilterKeepsAll(s[..k], p);
    FilterNone(s[k..], p);
    FilterConcat(s[..k], s[k..], p);
    assert s == s[..k] + s[k..];
  }

  lemma SortedBeaters(s: seq<Row>, k: nat)
    requires Sorted(s, Beats) && DistinctIds(s) && k < |s|
    ensures Beaters(s, s[k]) == k
  {
    hide Beats, Filter, Sorted;
    var p := (x: Row) => Beats(x, s[k]);
    forall i | 0 <= i < |s| ensures p(s[i]) <==> i < k {
      EarlierBeat(s, k, i);
    }
    SplitCount(s, k, p);
  }

  /** Position k of the sorted pool holds the hotel that exactly k others beat. */
  lemma PositionIsBeaters(pool: seq<Row>, k: nat)
    requires DistinctIds(pool) && k < |Sort(pool, Beats)|
    ensures Beaters(pool, Sort(pool, Beats)[k]) == k
  {
    hide Beats, Filter, Sort, Sorted;
    var s := Sort(pool, Beats);
    SortMultiset(pool, Beats);
    PermutedIdsDistinct(pool, s);
    BeatsOrders();
    SortSorted(pool, Beats);
    SortedBeaters(s, k);
    FilterSizePermutes(pool, s, (x: Row) => Beats(x, s[k]));
  }

  lemma FoundAt(pool: seq<Row>, r: Row)
    requires DistinctIds(pool) && r in pool
    ensures var s := Sort(pool, Beats); var k := FindIndex(s, r.id);
      0 <= k < |s| == |pool| && s[k] == r
  {
    var s := Sort(pool, Beats);
    SortMembers(pool, Beats);
    SortMultiset(pool, Beats);
    PermutedIdsDistinct(pool, s);
    var k := IndexOfRow(s, r);
    assert s[k].id == r.id;
  }

  /** The sort-and-find rank is one more than the number of hotels with a higher score, or the same and a smaller id. */
  lemma RankIsCounting(pool: seq<Row>, r: Row)
    requires DistinctIds(pool) && r in pool
    ensures RankIn(pool, r.id).rank
         == 1 + |Filter(pool, (x: Row) => x.overall > r.overall || (x.overall == r.overall && StrLess(x.id, r.id)))|
    ensures RankIn(pool, r.id).total == |pool|
    ensures RankIn(pool, r.id).rank == 1 + Beaters(pool, r)
  {
    hide Sort, Filter;
    FoundAt(pool, r);
    PositionIsBeaters(pool, FindIndex(Sort(pool, Beats), r.id));
    FilterSame(pool, (x: Row) => Beats(x, r),
               (x: Row) => x.overall > r.overall || (x.overall == r.overall && StrLess(x.id, r.id)));
  }

  /** Every rank from 1 to the pool size is held by exactly one hotel. */
  lemma RanksAreBijection(pool: seq<Row>, n: int)
    requires DistinctIds(pool) && 1 <= n <= |pool|
    ensures exists r :: r in pool && RankIn(pool, r.id).rank == n
    ensures forall a, b :: a in pool && b in pool && RankIn(pool, a.id).rank == RankIn(pool, b.id).rank ==> a == b
    ensures forall r :: r in pool ==> 1 <= RankIn(pool, r.id).rank <= |pool|
  {
    hide Sort, Beats, Beaters;
    var s := Sort(pool, Beats);
    SortMembers(pool, Beats);
    var r := s[n - 1];
    assert r in pool;
    RankIsCounting(pool, r);
    PositionIsBeaters(pool, n - 1);
    forall x | x in pool ensures var k := FindIndex(s, x.id); 0 <= k < |s| == |pool| && s[k] == x {
      FoundAt(pool, x);
    }
  }

  /** The percentile falls strictly with rank, from 100 at rank 1 to 0 at the last rank. */
  lemma PercentileFalls(a: int, b: int, total: nat)
    requires 1 <= a < b <= total
    ensures Percentile(1, total) == 100.0 && Percentile(total, total) == 0.0
    ensures Percentile(a, total) > Percentile(b, total)
  {
    var d := (total - 1) as real;
    QuotientTimes(d, d);
    QuotientTimes(0.0, d);
    Cancel(d / d, 1.0, d);
    Cancel(0.0 / d, 0.0, d);
    QuotientOrder((total - a) as real, (total - b) as real, d);
  }

  // ----- cohorts -----

  function CityPool(rows: seq<Row>, key: string): seq<Row> {
    if key == "" then [] else Filter(rows, (r: Row) => r.cityKey == key)
  }

  /** `zoneOf` is the zone table's lookup by city key. */
  function ZonePool(rows: seq<Row>, zoneOf: string -> Option<string>, zone: string): seq<Row> {
    Filter(rows, (r: Row) => zoneOf(r.cityKey) == Some(zone))
  }

  /** The smallest cohort with at least two hotels; national hides the rank. */
  function Cohort(rows: seq<Row>, zoneOf: string -> Option<string>, r: Row): CohortRank {
    var city := CityPool(rows, r.cityKey);
    var zone := zoneOf(r.cityKey);
    if |city| >= 2 then
      var k := RankIn(city, r.id);
      CohortRank(Some(k.rank), k.total, k.percentile, City)
    else if zone.Some? && |ZonePool(rows, zoneOf, zone.value)| >= 2 then
      var k := RankIn(ZonePool(rows, zoneOf, zone.value), r.id);
      CohortRank(Some(k.rank), k.total, k.percentile, Zone)
    else
      var k := RankIn(rows, r.id);
      CohortRank(None, k.total, k.percentile, National)
  }

  type Pools = map<string, seq<Row>>

  function Pooled(pools: Pools, key: string): seq<Row> {
    if key in pools then pools[key] else []
  }

  function Push(pools: Pools, key: string, r: Row): Pools {
    pools[key := Pooled(pools, key) + [r]]
  }

  method GroupByCity(rows: seq<Row>) returns (byCity: Pools)
    ensures forall key :: key != "" ==> Pooled(byCity, key) == CityPool(rows, key)
  {
    hide CityPool;
    byCity := map[];
    forall key ensures CityPool([], key) == [] { EmptyPools(key, _ => None); }
    for i := 0 to |rows|
      invariant forall key :: key != "" ==> Pooled(byCity, key) == CityPool(rows[..i], key)
    {
      var r := rows[i];
      TakeStep(rows, i);
      ghost var before := byCity;
      if r.cityKey != "" {
        byCity := Push(byCity, r.cityKey, r);
      }
      forall key | key != "" ensures Pooled(byCity, key) == CityPool(rows[..i + 1], key) {
        CityPoolStep(rows[..i], r, key);
        assert Pooled(before, key) == CityPool(rows[..i], key);
      }
    }
    assert rows[..|rows|] == rows;
  }

  method GroupByZone(rows: seq<Row>, zoneOf: string -> Option<string>) returns (byZone: Pools)
    ensures forall zone :: Pooled(byZone, zone) == ZonePool(rows, zoneOf, zone)
  {
    hide ZonePool;
    byZone := map[];
    forall zone ensures ZonePool([], zoneOf, zone) == [] { EmptyPools(zone, zoneOf); }
    for i := 0 to |rows|
      invariant forall zone :: Pooled(byZone, zone) == ZonePool(rows[..i], zoneOf, zone)
    {
      var r := rows[i];
      TakeStep(rows, i);
      ghost var before := byZone;
      var zid := zoneOf(r.cityKey);
      if zid.Some? {
        byZone := Push(byZone, zid.value, r);
      }
      forall zone ensures Pooled(byZone, zone) == ZonePool(rows[..i + 1], zoneOf, zone) {
        ZonePoolStep(rows[..i], zoneOf, r, zone);
        assert Pooled(before, zone) == ZonePool(rows[..i], zoneOf, zone);
      }
    }
    assert rows[..|rows|] == rows;
  }

  lemma EmptyPools(key: string, zoneOf: string -> Option<string>)
    ensures CityPool([], key) == [] && ZonePool([], zoneOf, key) == []
  {
  }

  lemma CityPoolStep(rows: seq<Row>, r: Row, key: string)
    ensures CityPool(rows + [r], key)
         == if key == "" || r.cityKey != key then CityPool(rows, key) else CityPool(rows, key) + [r]
  {
    PoolStep(rows, r, (x: Row) => x.cityKey == key);
  }

  lemma ZonePoolStep(rows: seq<Row>, zoneOf: string -> Option<string>, r: Row, zone: string)
    ensures ZonePool(rows + [r], zoneOf, zone)
         == if zoneOf(r.cityKey) == Some(zone) then ZonePool(rows, zoneOf, zone) + [r] else ZonePool(rows, zoneOf, zone)
  {
    PoolStep(rows, r, (x: Row) => zoneOf(x.cityKey) == Some(zone));
  }

  lemma PoolStep(rows: seq<Row>, r: Row, p: Row -> bool)
    ensures Filter(rows + [r], p) == if p(r) then Filter(rows, p) + [r] else Filter(rows, p)
  {
    FilterConcat(rows, [r], p);
    FilterOne(r, p);
  }

  ghost predicate Complete(out: map<string, CohortRank>, rows: seq<Row>, zoneOf: string -> Option<string>, n: nat)
    requires n <= |rows|
  {
    && (forall i :: 0 <= i < n ==> rows[i].id in out && out[rows[i].id] == Cohort(rows, zoneOf, rows[i]))
    && (forall id :: id in out ==> exists i :: 0 <= i < n && rows[i].id == id)
  }

  /** One entry for each hotel: its cohort and its rank there. */
  method ComputeMarketFitMap(rows: seq<Row>, zoneOf: string -> Option<string>) returns (out: map<string, CohortRank>)
    requires DistinctIds(rows)
    ensures Complete(out, rows, zoneOf, |rows|)
  {
    hide RankIn, CityPool, ZonePool;
    var byCity := GroupByCity(rows);
    var byZone := GroupByZone(rows, zoneOf);
    out := map[];
    for n := 0 to |rows|
      invariant Complete(out, rows, zoneOf, n)
    {
      var r := rows[n];
      var cohort;
      var cityPool := if r.cityKey != "" then Pooled(byCity, r.cityKey) else [];
      NoCityNoPool(rows, r);
      if |cityPool| >= 2 {
        var k := RankIn(cityPool, r.id);
        cohort := CohortRank(Some(k.rank), k.total, k.percentile, City);
      } else {
        var zid := zoneOf(r.cityKey);
        var zonePool := if zid.Some? then Pooled(byZone, zid.value) else [];
        if zid.Some? && |zonePool| >= 2 {
          var k := RankIn(zonePool, r.id);
          cohort := CohortRank(Some(k.rank), k.total, k.percentile, Zone);
        } else {
          var k := RankIn(rows, r.id);
          cohort := CohortRank(None, k.total, k.percentile, National);
        }
      }
      ghost var before := out;
      out := out[r.id := cohort];
      assert out[r.id] == Cohort(rows, zoneOf, r);
      assert forall i :: 0 <= i < n ==> rows[i].id != r.id;
    }
  }

  lemma NoCityNoPool(rows: seq<Row>, r: Row)
    ensures r.cityKey == "" ==> CityPool(rows, r.cityKey) == []
  {
  }

  /** Hotels of one city with at least two of them share scope and total, and hold different ranks among them. */
  lemma CityShared(rows: seq<Row>, zoneOf: string -> Option<string>, a: Row, b: Row)
    requires DistinctIds(rows) && a in rows && b in rows && a != b && a.cityKey == b.cityKey != ""
    ensures var (x, y) := (Cohort(rows, zoneOf, a), Cohort(rows, zoneOf, b));
      && x.scope == y.scope == City && x.total == y.total == |CityPool(rows, a.cityKey)|
      && x.rank.Some? && y.rank.Some? && x.rank != y.rank
      && (Beats(a, b) <==> x.rank.value < y.rank.value)
  {
    var pool := CityPool(rows, a.cityKey);
    CityPoolSound(rows, a);
    CityPoolSound(rows, b);
    hide RankIn, CityPool, Beats, Beaters, ZonePool;
    AtLeastTwo(pool, a, b);
    RankIsCounting(pool, a);
    RankIsCounting(pool, b);
    BeatsCount(pool, a, b);
    BeatsCount(pool, b, a);
    BeatsTotal(rows, a, b);
  }

  lemma CityPoolSound(rows: seq<Row>, r: Row)
    requires DistinctIds(rows) && r in rows && r.cityKey != ""
    ensures r in CityPool(rows, r.cityKey) && DistinctIds(CityPool(rows, r.cityKey))
  {
    SubpoolDistinct(rows, (x: Row) => x.cityKey == r.cityKey);
  }

  /** Of two different hotels exactly one beats the other. */
  lemma BeatsTotal(rows: seq<Row>, a: Row, b: Row)
    requires DistinctIds(rows) && a in rows && b in rows && a != b
    ensures Beats(a, b) || Beats(b, a)
  {
    StrLessTotal(a.id, b.id);
    if a.id == b.id { SameIdSameRow(rows, a, b); }
  }

  lemma AtLeastTwo(pool: seq<Row>, a: Row, b: Row)
    requires a in pool && b in pool && a != b
    ensures |pool| >= 2
  {
  }

  lemma SameIdSameRow(rows: seq<Row>, a: Row, b: Row)
    requires DistinctIds(rows) && a in rows && b in rows && a.id == b.id
    ensures a == b
  {
    var (i, j) := (IndexOfRow(rows, a), IndexOfRow(rows, b));
  }

  /** Beating someone means being beaten by strictly fewer. */
  lemma BeatsCount(pool: seq<Row>, a: Row, b: Row)
    requires a in pool && b in pool
    ensures Beats(a, b) ==> Beaters(pool, a) < Beaters(pool, b)
  {
    if Beats(a, b) {
      BeatsOrders();
      var p := (x: Row) => Beats(x, a);
      var q := (x: Row) => Beats(x, b);
      FilterFewer(pool, p, q, a);
    }
  }

  lemma {:induction false} FilterFewer<T(!new)>(s: seq<T>, p: T -> bool, q: T -> bool, extra: T)
    requires forall x :: p(x) ==> q(x)
    ensures |Filter(s, p)| <= |Filter(s, q)|
    ensures extra in s && q(extra) && !p(extra) ==> |Filter(s, p)| < |Filter(s, q)|
  {
    if s != [] { FilterFewer(s[1..], p, q, extra); }
  }

  lemma {:induction false} SubpoolDistinct(rows: seq<Row>, p: Row -> bool)
    requires DistinctIds(rows)
    ensures DistinctIds(Filter(rows, p))
  {
    if rows != [] {
      SubpoolDistinct(rows[1..], p);
      var rest := Filter(rows[1..], p);
      forall j | 0 <= j < |rest| ensures rest[j].id != rows[0].id {
        assert rest[j] in rows[1..];
      }
    }
  }

  /** Another hotel of the catalogue shares the (non-empty) city. */
  ghost predicate CityCompany(rows: seq<Row>, r: Row) {
    r.cityKey != "" && exists o :: o in rows && o != r && o.cityKey == r.cityKey
  }

  /** Another hotel of the catalogue lies in the same zone. */
  ghost predicate ZoneCompany(rows: seq<Row>, zoneOf: string -> Option<string>, r: Row) {
    zoneOf(r.cityKey).Some? && exists o :: o in rows && o != r && zoneOf(o.cityKey) == zoneOf(r.cityKey)
  }

  /** With distinct ids a filtered pool holds two hotels exactly when it holds another one besides `r`. */
  lemma CompanyMakesTwo(rows: seq<Row>, p: Row -> bool, r: Row)
    requires DistinctIds(rows) && r in rows && p(r)
    ensures |Filter(rows, p)| >= 2 <==> exists o :: o in rows && o != r && p(o)
  {
    var pool := Filter(rows, p);
    assert r in pool;
    if |pool| >= 2 {
      SubpoolDistinct(rows, p);
      var o := if pool[0] == r then pool[1] else pool[0];
      assert o in pool;
    }
    if o :| o in rows && o != r && p(o) {
      assert o in pool;
      AtLeastTwo(pool, r, o);
    }
  }

  /**
   In the finished map a hotel is ranked in its city exactly when another hotel shares the city, in
   its zone exactly when none does but one shares the zone, and shows no rank exactly when it is
   alone in both.
   */
  lemma RankHiddenExactly(rows: seq<Row>, zoneOf: string -> Option<string>, out: map<string, CohortRank>, r: Row)
    requires DistinctIds(rows) && Complete(out, rows, zoneOf, |rows|) && r in rows
    ensures r.id in out
    ensures out[r.id].scope == City <==> CityCompany(rows, r)
    ensures out[r.id].scope == Zone <==> !CityCompany(rows, r) && ZoneCompany(rows, zoneOf, r)
    ensures out[r.id].rank.None? <==> !CityCompany(rows, r) && !ZoneCompany(rows, zoneOf, r)
  {
    hide Filter, RankIn;
    var i := IndexOfRow(rows, r);
    assert out[rows[i].id] == Cohort(rows, zoneOf, r);
    if r.cityKey != "" {
      CompanyMakesTwo(rows, (x: Row) => x.cityKey == r.cityKey, r);
    }
    if zoneOf(r.cityKey).Some? {
      CompanyMakesTwo(rows, (x: Row) => zoneOf(x.cityKey) == Some(zoneOf(r.cityKey).value), r);
    }
  }

  /** How many of the hotels with the same key as `r` score higher, or the same with a smaller id. */
  function AheadOf(rows: seq<Row>, r: Row, same: Row -> bool): nat {
    |Filter(rows, (x: Row) =>
      same(x) && (x.overall > r.overall || (x.overall == r.overall && StrLess(x.id, r.id))))|
  }

  lemma RankInCohort(rows: seq<Row>, r: Row, same: Row -> bool)
    requires DistinctIds(rows) && r in rows && same(r)
    ensures RankIn(Filter(rows, same), r.id).rank == 1 + AheadOf(rows, r, same)
    ensures RankIn(Filter(rows, same), r.id).total == |Filter(rows, same)|
  {
    var higher := (x: Row) => x.overall > r.overall || (x.overall == r.overall && StrLess(x.id, r.id));
    SubpoolDistinct(rows, same);
    RankIsCounting(Filter(rows, same), r);
    FilterTwice(rows, same, higher, (x: Row) =>
      same(x) && (x.overall > r.overall || (x.overall == r.overall && StrLess(x.id, r.id))));
  }

  /** Of the other hotels of a cohort, the share in percent that ranks below this one; 100 when there is no other. */
  predicate IsShare(percentile: real, rank: int, total: nat) {
    if total > 1 then percentile * (total - 1) as real == 100.0 * (total - rank) as real else percentile == 100.0
  }

  /** The hotels a scope compares `r` with. */
  function Mates(zoneOf: string -> Option<string>, r: Row, scope: Scope): Row -> bool {
    (x: Row) =>
      match scope
      case City => x.cityKey == r.cityKey
      case Zone => zoneOf(x.cityKey) == zoneOf(r.cityKey)
      case National => true
  }

  lemma CohortAmongMates(rows: seq<Row>, zoneOf: string -> Option<string>, r: Row)
    ensures var c := Cohort(rows, zoneOf, r);
      var k := RankIn(Filter(rows, Mates(zoneOf, r, c.scope)), r.id);
      && c.total == k.total && c.percentile == k.percentile
      && (c.rank.Some? ==> c.rank.value == k.rank) && (c.rank.None? <==> c.scope == National)
  {
    hide Filter, RankIn;
    var c := Cohort(rows, zoneOf, r);
    var same := Mates(zoneOf, r, c.scope);
    match c.scope {
      case City => FilterSame(rows, same, (x: Row) => x.cityKey == r.cityKey);
      case Zone => FilterSame(rows, same, (x: Row) => zoneOf(x.cityKey) == Some(zoneOf(r.cityKey).value));
      case National => FilterKeepsAll(rows, same);
    }
  }

  /**
   The numbers in the finished map: in city scope the hotel's place among the catalogue's hotels of its
   city and how many those are; in zone scope likewise for its zone; in national scope the size of the
   catalogue. The percentile is the share of the other hotels of that cohort that rank below.
   */
  lemma EntryCounts(rows: seq<Row>, zoneOf: string -> Option<string>, out: map<string, CohortRank>, r: Row)
    requires DistinctIds(rows) && Complete(out, rows, zoneOf, |rows|) && r in rows
    ensures r.id in out
    ensures var entry := out[r.id];
      var same := Mates(zoneOf, r, entry.scope);
      var rank := 1 + AheadOf(rows, r, same);
      && entry.total == |Filter(rows, same)|
      && (entry.rank.Some? ==> entry.rank.value == rank) && (entry.rank.None? <==> entry.scope == National)
      && IsShare(entry.percentile, rank, entry.total)
  {
    EntryIsCohort(rows, zoneOf, out, r);
    hide Filter, RankIn, AheadOf, Percentile, Cohort, DistinctIds, Complete, IsShare;
    var same := Mates(zoneOf, r, out[r.id].scope);
    CohortAmongMates(rows, zoneOf, r);
    RankInCohort(rows, r, same);
    PercentileOf(Filter(rows, same), r.id);
  }

  lemma EntryIsCohort(rows: seq<Row>, zoneOf: string -> Option<string>, out: map<string, CohortRank>, r: Row)
    requires Complete(out, rows, zoneOf, |rows|) && r in rows
    ensures r.id in out && out[r.id] == Cohort(rows, zoneOf, r)
  {
    hide Cohort;
    var i := IndexOfRow(rows, r);
    assert out[rows[i].id] == Cohort(rows, zoneOf, rows[i]);
  }

  lemma PercentileOf(pool: seq<Row>, id: string)
    ensures var k := RankIn(pool, id); IsShare(k.percentile, k.rank, k.total)
  {
    hide Sort, FindIndex;
    var k := RankIn(pool, id);
    if k.total > 1 { PercentileShare(k.rank, k.total); }
  }

  lemma PercentileShare(rank: int, total: nat)
    requires total > 1
    ensures Percentile(rank, total) * (total - 1) as real == 100.0 * (total - rank) as real
  {
    QuotientTimes((total - rank) as real, (total - 1) as real);
  }
}
