/** Room-scope keys of the price calendar and the per-scope price store. */
module CalendarScope {
  import opened Base
  import opened Text
  import opened Sorting

  // ----- roomScopeKey -----

  function ScopeIds(ids: seq<string>): seq<string> { Sort(FirstOccurrences(ids), StrLess) }

  /** De-duplicated, sorted, joined with commas. */
  function RoomScopeKey(ids: seq<string>): string { Join(ScopeIds(ids), ",") }

  ghost predicate StrictlySorted(s: seq<string>) {
    forall i, j :: 0 <= i < j < |s| ==> StrLess(s[i], s[j])
  }

  lemma StrLessOrders()
    ensures StrictWeakOrder(StrLess)
  {
    forall a, b | StrLess(a, b) ensures !StrLess(b, a) { StrLessTotal(a, b); }
    forall a, b, c | StrLess(a, b) && StrLess(b, c) ensures StrLess(a, c) { StrLessTransitive(a, b, c); }
    forall a, b, c | !StrLess(a, b) && !StrLess(b, c) ensures !StrLess(a, c) {
      StrLessTotal(a, b);
      StrLessTotal(b, c);
      StrLessTotal(a, c);
      if a != b && b != c { StrLessTransitive(c, b, a); }
    }
  }

  lemma {:induction false} PermutationDistinct(a: seq<string>, b: seq<string>)
    requires Distinct(a) && multiset(a) == multiset(b)
    ensures Distinct(b)
  {
    forall i, j | 0 <= i < j < |b| ensures b[i] != b[j] {
      if b[i] == b[j] {
        var x, y := TwoPlaces(a, b, i, j);
        assert false;
      }
    }
  }

  /** The id list of a scope: every non-empty id once, in strictly increasing order. */
  lemma ScopeIdsSound(ids: seq<string>)
    ensures StrictlySorted(ScopeIds(ids))
    ensures forall id :: id in ScopeIds(ids) <==> id in ids && id != ""
  {
    hide Sort, FirstOccurrences;
    var d := FirstOccurrences(ids);
    FirstOccurrencesSound(ids);
    SortMultiset(d, StrLess);
    SortMembers(d, StrLess);
    StrLessOrders();
    SortSorted(d, StrLess);
    PermutationDistinct(d, ScopeIds(ids));
    forall i, j | 0 <= i < j < |ScopeIds(ids)| ensures StrLess(ScopeIds(ids)[i], ScopeIds(ids)[j]) {
      StrLessTotal(ScopeIds(ids)[i], ScopeIds(ids)[j]);
    }
  }

  lemma HeadNotInTail(s: seq<string>)
    requires StrictlySorted(s) && s != []
    ensures s[0] !in s[1..]
  {
    StrLessTotal(s[0], s[0]);
    forall k | 0 <= k < |s[1..]| ensures s[1..][k] != s[0] {
      assert StrLess(s[0], s[k + 1]);
    }
  }

  lemma {:induction false} SameElementsSameList(a: seq<string>, b: seq<string>)
    requires StrictlySorted(a) && StrictlySorted(b) && forall x :: x in a <==> x in b
    ensures a == b
  {
    if a == [] {
      SomeMember(b);
    } else {
      assert a[0] in a;
      assert b != [];
      var i :| 0 <= i < |b| && b[i] == a[0];
      assert b[0] in b;
      var j :| 0 <= j < |a| && a[j] == b[0];
      StrLessTotal(a[0], b[0]);
      assert a[0] == b[0];
      HeadNotInTail(a);
      HeadNotInTail(b);
      assert a == [a[0]] + a[1..] && b == [b[0]] + b[1..];
      forall x ensures x in a[1..] <==> x in b[1..] {
        assert x in a <==> x == a[0] || x in a[1..];
        assert x in b <==> x == b[0] || x in b[1..];
      }
      SameElementsSameList(a[1..], b[1..]);
    }
  }

  predicate CommaFree(ids: seq<string>) {
    forall i :: 0 <= i < |ids| ==> ',' !in ids[i]
  }

  /** split(","): the pieces between commas. */
  function SplitCommas(s: string): (r: seq<string>)
    ensures r != []
    decreases |s|
  {
    if ',' !in s then [s]
    else
      AfterShorter(s, ',');
      [UpTo(s, ',')] + SplitCommas(After(s, ','))
  }

  /** The comma pieces of all ids, one list after another. */
  function Pieces(ids: seq<string>): seq<string> {
    if ids == [] then [] else SplitCommas(ids[0]) + Pieces(ids[1..])
  }

  lemma {:induction false} SplitConcat(a: string, b: string)
    ensures SplitCommas(a + [','] + b) == SplitCommas(a) + SplitCommas(b)
    decreases |a|
  {
    var s := a + [','] + b;
    assert ',' in s by { assert s[|a|] == ','; }
    if ',' in a {
      AfterShorter(a, ',');
      CutBefore(a, ',', [','] + b);
      assert a + ([','] + b) == s && After(a, ',') + ([','] + b) == After(a, ',') + [','] + b;
      SplitConcat(After(a, ','), b);
    } else {
      CutAt(a, ',', b);
    }
  }

  lemma {:induction false} CutBefore(a: string, c: char, rest: string)
    requires c in a
    ensures UpTo(a + rest, c) == UpTo(a, c) && After(a + rest, c) == After(a, c) + rest
  {
    assert (a + rest)[1..] == a[1..] + rest;
    if a[0] != c { CutBefore(a[1..], c, rest); }
  }

  /** Splitting a joined list gives the pieces of its ids, and joining pieces gives the text back. */
  lemma {:induction false} SplitJoin(ids: seq<string>)
    requires ids != []
    ensures SplitCommas(Join(ids, ",")) == Pieces(ids)
  {
    if |ids| == 1 {
      assert Pieces(ids[1..]) == [];
    } else {
      SplitJoin(ids[1..]);
      SplitConcat(ids[0], Join(ids[1..], ","));
      assert Join(ids, ",") == ids[0] + [','] + Join(ids[1..], ",");
    }
  }

  lemma {:induction false} JoinSplit(s: string)
    ensures Join(SplitCommas(s), ",") == s
    decreases |s|
  {
    if ',' in s {
      AfterShorter(s, ',');
      JoinSplit(After(s, ','));
      var rest := SplitCommas(After(s, ','));
      assert ([UpTo(s, ',')] + rest)[1..] == rest;
      CutTogether(s, ',');
    }
  }

  lemma {:induction false} CutTogether(s: string, c: char)
    requires c in s
    ensures UpTo(s, c) + [c] + After(s, c) == s
  {
    if s[0] != c { CutTogether(s[1..], c); }
    assert s == [s[0]] + s[1..];
  }

  lemma JoinNonEmpty(ids: seq<string>)
    requires forall i :: 0 <= i < |ids| ==> ids[i] != ""
    ensures Join(ids, ",") == "" <==> ids == []
  {
  }

  /**
   Two room lists share a key exactly when the sorted, de-duplicated ids, cut at their commas, give
   the same pieces.
   */
  lemma ScopeKeysEqualExactly(a: seq<string>, b: seq<string>)
    ensures RoomScopeKey(a) == RoomScopeKey(b) <==> Pieces(ScopeIds(a)) == Pieces(ScopeIds(b))
  {
    hide ScopeIds, Join, SplitCommas, Pieces;
    ScopeIdsSound(a);
    ScopeIdsSound(b);
    KeyIsPieces(ScopeIds(a));
    KeyIsPieces(ScopeIds(b));
  }

  lemma KeyIsPieces(ids: seq<string>)
    requires forall id :: id in ids ==> id != ""
    ensures Pieces(ids) == if Join(ids, ",") == "" then [] else SplitCommas(Join(ids, ","))
    ensures Pieces(ids) != [] ==> Join(Pieces(ids), ",") == Join(ids, ",")
    ensures Pieces(ids) == [] <==> Join(ids, ",") == ""
  {
    hide SplitCommas, Join;
    forall i | 0 <= i < |ids| ensures ids[i] != "" { assert ids[i] in ids; }
    JoinNonEmpty(ids);
    if ids != [] {
      SplitJoin(ids);
      JoinSplit(Join(ids, ","));
    }
  }

  lemma {:induction false} PiecesOfCommaFree(ids: seq<string>)
    requires CommaFree(ids)
    ensures Pieces(ids) == ids
  {
    if ids != [] {
      PiecesOfCommaFree(ids[1..]);
      assert ids == [ids[0]] + ids[1..];
    }
  }

  /**
   Two room lists without commas share a key exactly when they name the same rooms; order and repeats
   do not matter.
   */
  lemma ScopeKeyExact(a: seq<string>, b: seq<string>)
    requires CommaFree(a) && CommaFree(b)
    ensures RoomScopeKey(a) == RoomScopeKey(b) <==> forall id :: id != "" ==> (id in a <==> id in b)
  {
    hide ScopeIds, RoomScopeKey;
    ScopeIdsSound(a);
    ScopeIdsSound(b);
    ScopeKeysEqualExactly(a, b);
    var (x, y) := (ScopeIds(a), ScopeIds(b));
    forall i | 0 <= i < |x| ensures ',' !in x[i] { assert x[i] in a; }
    forall i | 0 <= i < |y| ensures ',' !in y[i] { assert y[i] in b; }
    PiecesOfCommaFree(x);
    PiecesOfCommaFree(y);
    if forall id :: id != "" ==> (id in a <==> id in b) {
      SameElementsSameList(x, y);
    }
    if x == y {
      forall id | id != "" ensures id in a <==> id in b {
        assert id in x <==> id in y;
      }
    }
  }

  lemma OneId(id: string)
    requires id != ""
    ensures FirstOccurrences([id]) == [id] && Sort([id], StrLess) == [id]
  {
    assert [id][..0] == [] && [id][1..] == [];
  }

  lemma TwoIds(x: string, y: string)
    requires x != "" && y != "" && StrLess(x, y)
    ensures FirstOccurrences([x, y]) == [x, y] && Sort([x, y], StrLess) == [x, y]
  {
    OneId(x);
    OneId(y);
    StrLessTotal(x, y);
    assert [x, y][..1] == [x] && [x, y][1..] == [y];
    hide StrLess;
  }

  /** An id containing a comma can collide with two ids: the comma condition is needed. */
  lemma CommaCollides()
    ensures RoomScopeKey(["a,b"]) == RoomScopeKey(["a", "b"])
  {
    hide FirstOccurrences, Sort;
    OneId("a,b");
    TwoIds("a", "b");
    assert ["a", "b"][1..] == ["b"];
    assert Join(["b"], ",") == "b";
    assert Join(["a", "b"], ",") == "a" + "," + "b";
  }

  // ----- one spine response -----

  datatype Spine = Spine(livePrice: real, demandScore: real)

  datatype DayPrice = DayPrice(price: real, score: real)

  type DayPrices = map<string, DayPrice>

  /** Number(p?.livePrice) || 0 */
  function LivePrice(forDate: map<string, Spine>, roomId: string): real {
    if roomId in forDate then forDate[roomId].livePrice else 0.0
  }

  /** Room `k` is the first one at the least positive price, and the entry holds its price and score. */
  ghost predicate CheapestAt(p: DayPrice, forDate: map<string, Spine>, roomIds: seq<string>, k: int) {
    && 0 <= k < |roomIds| && roomIds[k] in forDate && forDate[roomIds[k]] == Spine(p.price, p.score)
    && (forall j :: 0 <= j < |roomIds| && LivePrice(forDate, roomIds[j]) > 0.0 ==>
          p.price <= LivePrice(forDate, roomIds[j]) && (j < k ==> p.price < LivePrice(forDate, roomIds[j])))
  }

  /** The patch entry is the least positive price of the scope's rooms, with the score of the first such room. */
  ghost predicate Cheapest(p: DayPrice, forDate: map<string, Spine>, roomIds: seq<string>) {
    p.price > 0.0 && exists k :: CheapestAt(p, forDate, roomIds, k)
  }

  ghost predicate PatchOf(
      patch: DayPrices, byDate: map<string, map<string, Spine>>, dates: seq<string>, roomIds: seq<string>)
  {
    && (forall iso :: iso in patch ==> iso in dates && iso in byDate && Cheapest(patch[iso], byDate[iso], roomIds))
    && (forall iso :: iso in dates && iso in byDate && iso !in patch ==>
          forall r :: r in roomIds ==> LivePrice(byDate[iso], r) <= 0.0)
  }

  method BuildPatch(
      byDate: map<string, map<string, Spine>>, dates: seq<string>, roomIds: seq<string>)
    returns (patch: DayPrices)
    ensures PatchOf(patch, byDate, dates, roomIds)
  {
    patch := map[];
    for i := 0 to |dates|
      invariant PatchOf(patch, byDate, dates[..i], roomIds)
    {
      var iso := dates[i];
      TakeStep(dates, i);
      if iso !in byDate { continue; }
      var minLive, scoreAtMin := CheapestRoom(byDate[iso], roomIds);
      if minLive > 0.0 {
        patch := patch[iso := DayPrice(minLive, scoreAtMin)];
      }
    }
    assert dates[..|dates|] == dates;
  }

  method CheapestRoom(forDate: map<string, Spine>, roomIds: seq<string>) returns (minLive: real, scoreAtMin: real)
    ensures minLive >= 0.0
    ensures minLive > 0.0 ==> Cheapest(DayPrice(minLive, scoreAtMin), forDate, roomIds)
    ensures minLive == 0.0 ==> forall r :: r in roomIds ==> LivePrice(forDate, r) <= 0.0
  {
    minLive, scoreAtMin := 0.0, 0.0;
    ghost var at := 0;
    for k := 0 to |roomIds|
      invariant minLive >= 0.0
      invariant minLive > 0.0 ==> CheapestAt(DayPrice(minLive, scoreAtMin), forDate, roomIds[..k], at)
      invariant minLive == 0.0 ==> forall r :: r in roomIds[..k] ==> LivePrice(forDate, r) <= 0.0
    {
      TakeStep(roomIds, k);
      var lp := LivePrice(forDate, roomIds[k]);
      if lp > 0.0 && (minLive == 0.0 || lp < minLive) {
        assert minLive == 0.0 ==> forall j :: 0 <= j < k ==> roomIds[..k][j] in roomIds[..k];
        minLive, scoreAtMin, at := lp, forDate[roomIds[k]].demandScore, k;
      }
    }
    assert roomIds[..|roomIds|] == roomIds;
  }

  // ----- the per-scope store -----

  type ByScope = map<string, DayPrices>

  function ReadScopedDayPrices(byScope: ByScope, key: string): DayPrices {
    if key in byScope then byScope[key] else map[]
  }

  /** { ...prev, [key]: { ...(prev[key] || {}), ...patch } } */
  function Merged(byScope: ByScope, key: string, patch: DayPrices): ByScope {
    byScope[key := ReadScopedDayPrices(byScope, key) + patch]
  }

  datatype Arrival = Arrival(key: string, patch: DayPrices)

  function MergeAll(byScope: ByScope, arrivals: seq<Arrival>): ByScope
    decreases arrivals
  {
    if arrivals == [] then byScope else MergeAll(Merged(byScope, arrivals[0].key, arrivals[0].patch), arrivals[1..])
  }

  /** The responses of one scope alone, laid over what it showed before. */
  function Overlay(prices: DayPrices, arrivals: seq<Arrival>, key: string): DayPrices
    decreases arrivals
  {
    if arrivals == [] then prices
    else Overlay(if arrivals[0].key == key then prices + arrivals[0].patch else prices, arrivals[1..], key)
  }

  /** However responses of different scopes interleave, a scope shows exactly its own. */
  lemma {:induction false} ScopesNeverMix(byScope: ByScope, arrivals: seq<Arrival>, key: string)
    ensures ReadScopedDayPrices(MergeAll(byScope, arrivals), key)
         == Overlay(ReadScopedDayPrices(byScope, key), arrivals, key)
    decreases arrivals
  {
    if arrivals != [] {
      ScopesNeverMix(Merged(byScope, arrivals[0].key, arrivals[0].patch), arrivals[1..], key);
    }
  }

  /** The component's price state: what each scope shows and which month-and-scope requests have succeeded. */
  class PriceStore {
    var byScope: ByScope
    var fetched: set<string>

    constructor ()
      ensures byScope == map[] && fetched == {}
    {
      byScope, fetched := map[], {};
    }

    /** One response; None stands for a failed or malformed body, which stays retryable. */
    method Receive(
        monthKey: string, key: string, response: Option<map<string, map<string, Spine>>>,
        dates: seq<string>, roomIds: seq<string>)
      returns (ghost patch: DayPrices)
      modifies this
      ensures response.None? ==> byScope == old(byScope) && fetched == old(fetched)
      ensures response.Some? ==> fetched == old(fetched) + {monthKey} && byScope == Merged(old(byScope), key, patch)
      ensures response.Some? ==> PatchOf(patch, response.value, dates, roomIds)
    {
      patch := map[];
      if response.None? {
        return;
      }
      var built := BuildPatch(response.value, dates, roomIds);
      fetched := fetched + {monthKey};
      byScope := byScope[key := ReadScopedDayPrices(byScope, key) + built];
      patch := built;
    }
  }
}
