/** Guest capacity of a mix of room categories and the fewest rooms for a party. */
module Catalog {
  import opened Base

  /** ROOM_CATEGORY_CAPACITY[id] || 2 */
  function CategoryCapacity(id: string): nat {
    if id == "dormitory" then 1
    else if id == "junior_suite" || id == "cottage" then 3
    else if id == "family" || id == "suite" then 4
    else if id == "presidential_suite" || id == "villa" then 6
    else 2
  }

  function TotalCapacity(ids: seq<string>): nat {
    if ids == [] then 0 else TotalCapacity(ids[..|ids| - 1]) + CategoryCapacity(ids[|ids| - 1])
  }

  function AverageCapacity(ids: seq<string>): real {
    if ids == [] then 2.0 else TotalCapacity(ids) as real / |ids| as real
  }

  method CapacityForCategories(ids: seq<string>) returns (c: real)
    ensures c == AverageCapacity(ids)
  {
    if |ids| == 0 {
      return 2.0;
    }
    var sum := 0;
    for i := 0 to |ids|
      invariant sum == TotalCapacity(ids[..i])
    {
      assert ids[..i + 1][..i] == ids[..i];
      sum := sum + CategoryCapacity(ids[i]);
    }
    assert ids[..|ids|] == ids;
    return sum as real / |ids| as real;
  }

  function RoomCapacity(ids: seq<string>): real { RMax(1.0, AverageCapacity(ids)) }

  function Party(n: real): nat { Max(0, n.Floor) }

  function MinRooms(a: nat, c: nat, cap: real): int
    requires cap >= 1.0
  {
    var adultRooms := Ceil(Max(1, a) as real / cap);
    var childRooms := Ceil(c as real / cap);
    var naive := Max(adultRooms, childRooms);
    Max(1, if a > 0 then Min(naive, a) else 1)
  }

  function MinRoomsForGuests(adults: real, children: real, ids: seq<string>): int {
    MinRooms(Party(adults), Party(children), RoomCapacity(ids))
  }

  // ----- what the count means -----

  /** `k` rooms hold the adults, and the children beside them. */
  predicate Fits(k: int, a: nat, c: nat, cap: real) {
    k >= 1 && a as real <= k as real * cap && c as real <= k as real * cap
  }

  lemma CeilBelow(n: nat, cap: real, k: int)
    requires cap >= 1.0
    ensures Ceil(n as real / cap) <= k <==> n as real <= k as real * cap
  {
    var q := n as real / cap;
    QuotientTimes(n as real, cap);
    Cancel(q, k as real, cap);
    Cancel(k as real, q, cap);
    CeilAtMost(q, k);
  }

  lemma CeilAtMost(q: real, k: int)
    ensures Ceil(q) <= k <==> q <= k as real
  {
  }

  lemma CeilOfParty(a: nat, cap: real)
    requires cap >= 1.0 && a >= 1
    ensures 1 <= Ceil(a as real / cap) <= a
  {
    CeilBelow(a, cap, a);
    CeilBelow(a, cap, 0);
    AtLeastItself(a as real, cap);
  }

  lemma AtLeastItself(x: real, cap: real)
    requires cap >= 1.0 && x >= 0.0
    ensures x <= x * cap
  {
  }

  /**
   With at least one adult every room gets one and all adults are seated. The count is the least
   that holds adults and children side by side, or it is the number of adults and no count that
   small would hold the children.
   */
  lemma RoomsExact(adults: real, children: real, ids: seq<string>)
    requires Party(adults) >= 1
    ensures var (a, c, cap) := (Party(adults), Party(children), RoomCapacity(ids));
      var r := MinRoomsForGuests(adults, children, ids);
      && 1 <= r <= a && a as real <= r as real * cap
      && ((Fits(r, a, c, cap) && forall k :: Fits(k, a, c, cap) ==> r <= k)
          || (r == a && forall k :: Fits(k, a, c, cap) ==> k > a))
  {
    hide Ceil, AverageCapacity, Fits, Party;
    var (a, c, cap) := (Party(adults), Party(children), RoomCapacity(ids));
    var r := MinRoomsForGuests(adults, children, ids);
    CeilOfParty(a, cap);
    CeilBelow(a, cap, r);
    forall k ensures Fits(k, a, c, cap) <==> k >= 1 && Ceil(a as real / cap) <= k && Ceil(c as real / cap) <= k {
      FitsExact(k, a, c, cap);
    }
  }

  lemma FitsExact(k: int, a: nat, c: nat, cap: real)
    requires cap >= 1.0
    ensures Fits(k, a, c, cap) <==> k >= 1 && Ceil(a as real / cap) <= k && Ceil(c as real / cap) <= k
  {
    hide Ceil;
    CeilBelow(a, cap, k);
    CeilBelow(c, cap, k);
  }

  /** More adults or more children never need fewer rooms. */
  lemma RoomsMonotone(a: nat, b: nat, c: nat, d: nat, cap: real)
    requires cap >= 1.0 && a <= b && c <= d
    ensures MinRooms(a, c, cap) <= MinRooms(b, d, cap)
  {
    CeilMonotone(Max(1, a), Max(1, b), cap);
    CeilMonotone(c, d, cap);
    hide Ceil;
  }

  lemma CeilMonotone(m: nat, n: nat, cap: real)
    requires cap >= 1.0 && m <= n
    ensures Ceil(m as real / cap) <= Ceil(n as real / cap)
  {
    if m < n { QuotientOrder(n as real, m as real, cap); }
  }

  lemma GuestsMonotone(adults: real, moreAdults: real, children: real, moreChildren: real, ids: seq<string>)
    requires adults <= moreAdults && children <= moreChildren
    ensures MinRoomsForGuests(adults, children, ids) <= MinRoomsForGuests(moreAdults, moreChildren, ids)
  {
    RoomsMonotone(Party(adults), Party(moreAdults), Party(children), Party(moreChildren), RoomCapacity(ids));
  }

  // ----- order of room types -----

  lemma {:induction false} TotalWithout(ids: seq<string>, k: nat)
    requires k < |ids|
    ensures TotalCapacity(ids) == CategoryCapacity(ids[k]) + TotalCapacity(ids[..k] + ids[k + 1..])
  {
    var n := |ids| - 1;
    var rest := ids[..k] + ids[k + 1..];
    if k == n {
      assert rest == ids[..n];
    } else {
      assert rest[..n - 1] == ids[..n][..k] + ids[..n][k + 1..];
      TotalWithout(ids[..n], k);
    }
  }

  lemma {:induction false} TotalPermutes(a: seq<string>, b: seq<string>)
    requires multiset(a) == multiset(b)
    ensures |a| == |b| && TotalCapacity(a) == TotalCapacity(b)
  {
    assert |multiset(a)| == |multiset(b)|;
    if a != [] {
      var n := |a| - 1;
      assert a[n] in multiset(b);
      var k :| 0 <= k < |b| && b[k] == a[n];
      SameWithout(a, n, b, k);
      assert a[..n] + a[n + 1..] == a[..n];
      TotalPermutes(a[..n], b[..k] + b[k + 1..]);
      TotalWithout(b, k);
    }
  }

  lemma MultisetWithout(b: seq<string>, k: nat)
    requires k < |b|
    ensures multiset(b) == multiset(b[..k] + b[k + 1..]) + multiset{b[k]}
  {
    assert b == b[..k] + [b[k]] + b[k + 1..];
  }

  /** Taking the same element out of two permutations leaves permutations. */
  lemma SameWithout(a: seq<string>, i: nat, b: seq<string>, k: nat)
    requires multiset(a) == multiset(b) && i < |a| && k < |b| && a[i] == b[k]
    ensures multiset(a[..i] + a[i + 1..]) == multiset(b[..k] + b[k + 1..])
  {
    MultisetWithout(a, i);
    MultisetWithout(b, k);
    assert multiset(a) - multiset{a[i]} == multiset(a[..i] + a[i + 1..]);
    assert multiset(b) - multiset{b[k]} == multiset(b[..k] + b[k + 1..]);
  }

  /** Listing the room types in another order changes nothing. */
  lemma OrderIrrelevant(adults: real, children: real, a: seq<string>, b: seq<string>)
    requires multiset(a) == multiset(b)
    ensures MinRoomsForGuests(adults, children, a) == MinRoomsForGuests(adults, children, b)
  {
    TotalPermutes(a, b);
  }

  // ----- the table of capacities -----

  /** Guests per room of each category; an unknown one counts as two. */
  lemma CapacityTable(id: string)
    ensures CategoryCapacity("dormitory") == 1
    ensures CategoryCapacity("junior_suite") == 3 && CategoryCapacity("cottage") == 3
    ensures CategoryCapacity("family") == 4 && CategoryCapacity("suite") == 4
    ensures CategoryCapacity("presidential_suite") == 6 && CategoryCapacity("villa") == 6
    ensures id !in ["dormitory", "junior_suite", "cottage", "family", "suite", "presidential_suite", "villa"]
            ==> CategoryCapacity(id) == 2
  {
  }

  ghost predicate IsAverage(average: real, total: int, count: nat) { average * count as real == total as real }

  /** The average: two for no categories, else the total over their number; one more category adds its own capacity. */
  lemma AverageByCategory(ids: seq<string>, id: string)
    ensures AverageCapacity([]) == 2.0
    ensures ids != [] ==> IsAverage(AverageCapacity(ids), TotalCapacity(ids), |ids|)
    ensures TotalCapacity([]) == 0 && TotalCapacity(ids + [id]) == TotalCapacity(ids) + CategoryCapacity(id)
  {
    assert (ids + [id])[..|ids|] == ids;
    if ids != [] { AverageTimes(ids, TotalCapacity(ids) as real, |ids| as real); }
  }

  lemma AverageTimes(ids: seq<string>, total: real, count: real)
    requires ids != [] && total == TotalCapacity(ids) as real && count == |ids| as real
    ensures IsAverage(AverageCapacity(ids), TotalCapacity(ids), |ids|)
  {
    hide TotalCapacity;
    QuotientTimes(total, count);
    assert AverageCapacity(ids) == total / count;
  }

  /** Half guests do not count, nor do negative ones; a room holds at least one; without adults one room is enough. */
  lemma PartiesAndRooms(n: nat, x: real, ids: seq<string>)
    ensures 0.0 <= x && x < 1.0 ==> Party(n as real + x) == n
    ensures x < 0.0 ==> Party(x) == 0
    ensures RoomCapacity(ids) >= 1.0 && RoomCapacity(ids) >= AverageCapacity(ids)
    ensures RoomCapacity(ids) == 1.0 || RoomCapacity(ids) == AverageCapacity(ids)
    ensures MinRoomsForGuests(0.0, n as real, ids) == 1
  {
    hide AverageCapacity;
  }
}
