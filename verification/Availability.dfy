/**
 Room inventory: which stays hold units on which nights, how many units are free
 over a range, and whether one physical unit is sold twice. Nights are day numbers;
 module Calendar shows that comparing day numbers is comparing the stored date texts.
 */
module Availability {
  import opened Base
  import Calendar
  import opened Text

  type Night = int

  datatype Status =
    Pending | Accepted | Counter | Confirmed | CheckedIn | CheckedOut | Rejected | Expired | Cancelled

  /** A bids row joined with its request's dates and its unit assignment. */
  datatype Bid = Bid(
    id: string, hotelId: string, roomId: string, status: Status, numRooms: Option<int>,
    checkIn: Option<Night>, checkOut: Option<Night>, unitId: Option<string>)

  /** A room_blocks row: walk-in, OTA import or manual hold. */
  datatype Block = Block(
    id: string, hotelId: string, roomId: string, fromDate: Night, toDate: Night, unitId: Option<string>)

  datatype Occupation = Occupation(
    fromDate: Night, toDate: Night, roomId: string, hotelId: string, refId: string,
    assignedUnitId: Option<string>, numRooms: Option<int>)

  /** Math.max(1, numRooms || 1): a missing, zero or negative count is one room. */
  function Rooms(numRooms: Option<int>): (r: int)
    ensures r >= 1
  {
    Max(1, numRooms.GetOr(1))
  }

  predicate Covers(o: Occupation, night: Night) {
    o.fromDate <= night < o.toDate
  }

  predicate RangesOverlap(a1: Night, a2: Night, b1: Night, b2: Night) {
    a1 < b2 && b1 < a2
  }

  /** The comparisons made on stored date texts are the ones made here on day numbers. */
  lemma TextTestsAgree(fromISO: string, toISO: string, night: string, a: string, b: string)
    requires Calendar.ParseIso(fromISO).Some? && Calendar.ParseIso(toISO).Some?
    requires Calendar.ParseIso(night).Some? && Calendar.ParseIso(a).Some? && Calendar.ParseIso(b).Some?
    ensures !StrLess(night, fromISO) && StrLess(night, toISO)
            <==> Calendar.DayOf(fromISO) <= Calendar.DayOf(night) < Calendar.DayOf(toISO)
    ensures Calendar.RangesOverlap(fromISO, toISO, a, b)
            <==> RangesOverlap(Calendar.DayOf(fromISO), Calendar.DayOf(toISO), Calendar.DayOf(a), Calendar.DayOf(b))
  {
    hide Calendar.DayOf, Calendar.ParseIso;
    Calendar.TextOrderIsChronological(night, fromISO);
    Calendar.TextOrderIsChronological(night, toISO);
    Calendar.TextOrderIsChronological(fromISO, b);
    Calendar.TextOrderIsChronological(a, toISO);
  }

  // ----- getOccupations -----

  predicate Blocking(s: Status) {
    s == Accepted || s == Counter || s == Confirmed || s == CheckedIn
  }

  predicate Queried(s: Status) {
    Blocking(s) || s == Pending
  }

  predicate InScope(hotel: string, room: string, hotelId: string, roomId: Option<string>) {
    hotel == hotelId && (roomId.None? || room == roomId.value)
  }

  /** What one bids row contributes, if anything. */
  function BidOccupation(b: Bid, hotelId: string, roomId: Option<string>, from: Night, to: Night): seq<Occupation> {
    if InScope(b.hotelId, b.roomId, hotelId, roomId) && Blocking(b.status)
       && b.checkIn.Some? && b.checkOut.Some?
       && RangesOverlap(b.checkIn.value, b.checkOut.value, from, to)
    then [OfBid(b)] else []
  }

  function OfBid(b: Bid): Occupation
    requires b.checkIn.Some? && b.checkOut.Some?
  {
    Occupation(b.checkIn.value, b.checkOut.value, b.roomId, b.hotelId, b.id, b.unitId, Some(Rooms(b.numRooms)))
  }

  function BlockOccupation(b: Block, hotelId: string, roomId: Option<string>, from: Night, to: Night): seq<Occupation> {
    if InScope(b.hotelId, b.roomId, hotelId, roomId) && from < b.toDate && b.fromDate < to
    then [OfBlock(b)] else []
  }

  function OfBlock(b: Block): Occupation {
    Occupation(b.fromDate, b.toDate, b.roomId, b.hotelId, b.id, b.unitId, Some(1))
  }

  function BidOccupations(
      bids: seq<Bid>, hotelId: string, roomId: Option<string>, from: Night, to: Night): seq<Occupation>
  {
    if bids == [] then []
    else BidOccupations(bids[..|bids| - 1], hotelId, roomId, from, to)
         + BidOccupation(bids[|bids| - 1], hotelId, roomId, from, to)
  }

  function BlockOccupations(
      blocks: seq<Block>, hotelId: string, roomId: Option<string>, from: Night, to: Night): seq<Occupation>
  {
    if blocks == [] then []
    else BlockOccupations(blocks[..|blocks| - 1], hotelId, roomId, from, to)
         + BlockOccupation(blocks[|blocks| - 1], hotelId, roomId, from, to)
  }

  function Occupations(
      bids: seq<Bid>, blocks: seq<Block>, hotelId: string,
      roomId: Option<string>, from: Night, to: Night): seq<Occupation>
  {
    BidOccupations(bids, hotelId, roomId, from, to) + BlockOccupations(blocks, hotelId, roomId, from, to)
  }

  /** `bids` and `blocks` are the two tables; the row filters of the two queries are part of the loops. */
  method GetOccupations(
      bids: seq<Bid>, blocks: seq<Block>, hotelId: string, roomId: Option<string>, from: Night, to: Night)
    returns (out: seq<Occupation>)
    ensures out == Occupations(bids, blocks, hotelId, roomId, from, to)
  {
    out := AddBids([], bids, hotelId, roomId, from, to);
    out := AddBlocks(out, blocks, hotelId, roomId, from, to);
    assert [] + BidOccupations(bids, hotelId, roomId, from, to) == BidOccupations(bids, hotelId, roomId, from, to);
  }

  method AddBids(init: seq<Occupation>, bids: seq<Bid>, hotelId: string, roomId: Option<string>, from: Night, to: Night)
    returns (out: seq<Occupation>)
    ensures out == init + BidOccupations(bids, hotelId, roomId, from, to)
  {
    hide OfBid;
    out := init;
    for i := 0 to |bids|
      invariant out == init + BidOccupations(bids[..i], hotelId, roomId, from, to)
    {
      var b := bids[i];
      assert bids[..i + 1][..i] == bids[..i];
      if !InScope(b.hotelId, b.roomId, hotelId, roomId) || !Queried(b.status) { continue; }
      if b.checkIn.None? || b.checkOut.None? { continue; }
      if !RangesOverlap(b.checkIn.value, b.checkOut.value, from, to) { continue; }
      if b.status == Accepted || b.status == Counter || b.status == Confirmed || b.status == CheckedIn {
        out := out + [OfBid(b)];
      }
    }
    assert bids[..|bids|] == bids;
  }

  method AddBlocks(
      init: seq<Occupation>, blocks: seq<Block>, hotelId: string, roomId: Option<string>, from: Night, to: Night)
    returns (out: seq<Occupation>)
    ensures out == init + BlockOccupations(blocks, hotelId, roomId, from, to)
  {
    hide OfBlock;
    out := init;
    for i := 0 to |blocks|
      invariant out == init + BlockOccupations(blocks[..i], hotelId, roomId, from, to)
    {
      var b := blocks[i];
      assert blocks[..i + 1][..i] == blocks[..i];
      if InScope(b.hotelId, b.roomId, hotelId, roomId) && b.toDate > from && b.fromDate < to {
        out := out + [OfBlock(b)];
      }
    }
    assert blocks[..|blocks|] == blocks;
  }

  // ----- nightly load -----

  function Weight(o: Occupation, roomId: string, night: Night): nat {
    if o.roomId == roomId && Covers(o, night) then Rooms(o.numRooms) else 0
  }

  /** Units of `roomId` that `occs` hold on `night`. */
  function Load(occs: seq<Occupation>, roomId: string, night: Night): nat {
    if occs == [] then 0
    else Load(occs[..|occs| - 1], roomId, night) + Weight(occs[|occs| - 1], roomId, night)
  }

  lemma LoadConcat(a: seq<Occupation>, b: seq<Occupation>, roomId: string, night: Night)
    ensures Load(a + b, roomId, night) == Load(a, roomId, night) + Load(b, roomId, night)
  {
    if b == [] {
      assert a + b == a;
    } else {
      assert (a + b)[..|a + b| - 1] == a + b[..|b| - 1];
      LoadConcat(a, b[..|b| - 1], roomId, night);
    }
  }

  /** Units held by the blocking bids of a room on a night, straight from the table. */
  function BidLoad(bids: seq<Bid>, hotelId: string, roomId: string, night: Night): nat {
    if bids == [] then 0
    else BidLoad(bids[..|bids| - 1], hotelId, roomId, night) + BidWeight(bids[|bids| - 1], hotelId, roomId, night)
  }

  function BidWeight(b: Bid, hotelId: string, roomId: string, night: Night): nat {
    if b.hotelId == hotelId && b.roomId == roomId && Blocking(b.status)
       && b.checkIn.Some? && b.checkOut.Some? && b.checkIn.value <= night < b.checkOut.value
    then Rooms(b.numRooms) else 0
  }

  function BlockLoad(blocks: seq<Block>, hotelId: string, roomId: string, night: Night): nat {
    if blocks == [] then 0
    else BlockLoad(blocks[..|blocks| - 1], hotelId, roomId, night)
         + BlockWeight(blocks[|blocks| - 1], hotelId, roomId, night)
  }

  function BlockWeight(b: Block, hotelId: string, roomId: string, night: Night): nat {
    if b.hotelId == hotelId && b.roomId == roomId && b.fromDate <= night < b.toDate then 1 else 0
  }

  lemma LoadOfOne(o: Occupation, roomId: string, night: Night)
    ensures Load([o], roomId, night) == Weight(o, roomId, night)
  {
    assert [o][..0] == [];
  }

  lemma BidKept(b: Bid, hotelId: string, roomId: string, from: Night, to: Night, night: Night)
    requires from <= night < to
    ensures Load(BidOccupation(b, hotelId, Some(roomId), from, to), roomId, night)
         == BidWeight(b, hotelId, roomId, night)
  {
    if b.checkIn.Some? && b.checkOut.Some? { LoadOfOne(OfBid(b), roomId, night); }
  }

  lemma BlockKept(b: Block, hotelId: string, roomId: string, from: Night, to: Night, night: Night)
    requires from <= night < to
    ensures Load(BlockOccupation(b, hotelId, Some(roomId), from, to), roomId, night)
         == BlockWeight(b, hotelId, roomId, night)
  {
    LoadOfOne(OfBlock(b), roomId, night);
  }

  lemma {:induction false} BidsKept(
      bids: seq<Bid>, hotelId: string, roomId: string, from: Night, to: Night, night: Night)
    requires from <= night < to
    ensures Load(BidOccupations(bids, hotelId, Some(roomId), from, to), roomId, night)
         == BidLoad(bids, hotelId, roomId, night)
  {
    hide BidOccupation, BidWeight, Weight;
    if bids != [] {
      var (init, b) := (bids[..|bids| - 1], bids[|bids| - 1]);
      BidsKept(init, hotelId, roomId, from, to, night);
      BidKept(b, hotelId, roomId, from, to, night);
      LoadConcat(BidOccupations(init, hotelId, Some(roomId), from, to),
                 BidOccupation(b, hotelId, Some(roomId), from, to), roomId, night);
    }
  }

  lemma {:induction false} BlocksKept(
      blocks: seq<Block>, hotelId: string, roomId: string, from: Night, to: Night, night: Night)
    requires from <= night < to
    ensures Load(BlockOccupations(blocks, hotelId, Some(roomId), from, to), roomId, night)
         == BlockLoad(blocks, hotelId, roomId, night)
  {
    hide BlockOccupation, BlockWeight, Weight;
    if blocks != [] {
      var (init, b) := (blocks[..|blocks| - 1], blocks[|blocks| - 1]);
      BlocksKept(init, hotelId, roomId, from, to, night);
      BlockKept(b, hotelId, roomId, from, to, night);
      LoadConcat(BlockOccupations(init, hotelId, Some(roomId), from, to),
                 BlockOccupation(b, hotelId, Some(roomId), from, to), roomId, night);
    }
  }

  /** The overlap and status filters drop nothing that holds a unit on a queried night. */
  lemma NothingDropped(
      bids: seq<Bid>, blocks: seq<Block>, hotelId: string, roomId: string, from: Night, to: Night, night: Night)
    requires from <= night < to
    ensures Load(Occupations(bids, blocks, hotelId, Some(roomId), from, to), roomId, night)
         == BidLoad(bids, hotelId, roomId, night) + BlockLoad(blocks, hotelId, roomId, night)
  {
    BidsKept(bids, hotelId, roomId, from, to, night);
    BlocksKept(blocks, hotelId, roomId, from, to, night);
    LoadConcat(BidOccupations(bids, hotelId, Some(roomId), from, to),
               BlockOccupations(blocks, hotelId, Some(roomId), from, to), roomId, night);
  }

  // ----- occupationsToDateSet -----

  /** Some occupation of the room (or of any room) covers the night. */
  predicate OccupiedOn(occs: seq<Occupation>, roomId: Option<string>, night: Night) {
    exists i :: 0 <= i < |occs| && (roomId.None? || occs[i].roomId == roomId.value) && Covers(occs[i], night)
  }

  lemma OccupiedOnAppend(occs: seq<Occupation>, o: Occupation, roomId: Option<string>, night: Night)
    ensures OccupiedOn(occs + [o], roomId, night)
       <==> OccupiedOn(occs, roomId, night) || ((roomId.None? || o.roomId == roomId.value) && Covers(o, night))
  {
    assert (occs + [o])[|occs|] == o;
    assert forall i :: 0 <= i < |occs| ==> (occs + [o])[i] == occs[i];
  }

  /** The occupied nights: exactly those some occupation of the room (or of any room) covers. */
  method OccupationsToDateSet(occs: seq<Occupation>, roomId: Option<string>) returns (s: set<Night>)
    ensures forall n :: n in s <==> OccupiedOn(occs, roomId, n)
  {
    s := {};
    for i := 0 to |occs|
      invariant forall n :: n in s <==> OccupiedOn(occs[..i], roomId, n)
    {
      var o := occs[i];
      TakeStep(occs, i);
      forall n
        ensures OccupiedOn(occs[..i + 1], roomId, n)
           <==> OccupiedOn(occs[..i], roomId, n) || ((roomId.None? || o.roomId == roomId.value) && Covers(o, n))
      {
        OccupiedOnAppend(occs[..i], o, roomId, n);
      }
      if roomId.Some? && o.roomId != roomId.value { continue; }
      ghost var before := s;
      for d := o.fromDate to Max(o.fromDate, o.toDate)
        invariant forall n :: n in s <==> n in before || o.fromDate <= n < d
      {
        s := s + {d};
      }
    }
    assert occs[..|occs|] == occs;
  }

  /** A night is in the set exactly when the room's load on it is positive. */
  lemma {:induction false} OccupiedMeansLoaded(occs: seq<Occupation>, roomId: string, night: Night)
    ensures Load(occs, roomId, night) > 0 <==> OccupiedOn(occs, Some(roomId), night)
  {
    if occs != [] {
      OccupiedMeansLoaded(occs[..|occs| - 1], roomId, night);
      assert forall i :: 0 <= i < |occs| - 1 ==> occs[..|occs| - 1][i] == occs[i];
    }
  }

  // ----- unitsFreeForRange -----

  /** The maximum of Load over [from, to), 0 when the range is empty. */
  function Peak(occs: seq<Occupation>, roomId: string, from: Night, to: Night): (p: nat)
    ensures forall n :: from <= n < to ==> Load(occs, roomId, n) <= p
    ensures from < to ==> exists n :: from <= n < to && Load(occs, roomId, n) == p
    decreases (to - from)
  {
    if from >= to then 0
    else
      var rest := Peak(occs, roomId, from, to - 1);
      Max(rest, Load(occs, roomId, to - 1))
  }

  datatype UnitRows = UnitsFailed | Units(count: nat)

  /** The rooms.quantity lookup: request failed, no value, or a number. */
  datatype QuantityAnswer = QuantityFailed | NoQuantity | Quantity(value: int)

  /** Active units first, else rooms.quantity; None when there is no capacity signal. */
  function Capacity(units: UnitRows, quantity: QuantityAnswer): (c: Option<int>)
    ensures c.Some? ==> c.value > 0
  {
    if units.Units? && units.count > 0 then Some(units.count)
    else if quantity.Quantity? && quantity.value > 0 then Some(quantity.value)
    else None
  }

  datatype Availability = Availability(capacity: int, occupied: int, free: int)

  /** The peak over the range of the units held, against capacity. */
  function UnitsFree(
      bids: seq<Bid>, blocks: seq<Block>, units: UnitRows, quantity: QuantityAnswer,
      hotelId: string, roomId: string, from: Night, to: Night): Option<Availability> {
    if hotelId == "" || roomId == "" || from >= to then None
    else
      match Capacity(units, quantity)
      case None => None
      case Some(capacity) =>
        var occupied := Peak(Occupations(bids, blocks, hotelId, Some(roomId), from, to), roomId, from, to);
        Some(Availability(capacity, occupied, Max(0, capacity - occupied)))
  }

  method UnitsFreeForRange(
      bids: seq<Bid>, blocks: seq<Block>, units: UnitRows, quantity: QuantityAnswer,
      hotelId: string, roomId: string, from: Night, to: Night)
    returns (r: Option<Availability>)
    ensures r == UnitsFree(bids, blocks, units, quantity, hotelId, roomId, from, to)
    ensures r.Some? ==>
      && (forall n :: from <= n < to ==>
            BidLoad(bids, hotelId, roomId, n) + BlockLoad(blocks, hotelId, roomId, n) <= r.value.occupied)
      && (exists n :: from <= n < to &&
            BidLoad(bids, hotelId, roomId, n) + BlockLoad(blocks, hotelId, roomId, n) == r.value.occupied)
  {
    hide Peak, Occupations;
    if hotelId == "" || roomId == "" || from >= to {
      return None;
    }
    var capacity := 0;
    if units.Units? {
      capacity := units.count;
    }
    if capacity == 0 {
      match quantity
      case QuantityFailed => return None;
      case NoQuantity => return None;
      case Quantity(q) => capacity := Max(0, q);
    }
    if capacity <= 0 {
      return None;
    }
    var occs := GetOccupations(bids, blocks, hotelId, Some(roomId), from, to);
    var peakOccupied := PeakOccupied(occs, roomId, from, to);
    PeakOfTables(bids, blocks, hotelId, roomId, from, to);
    return Some(Availability(capacity, peakOccupied, Max(0, capacity - peakOccupied)));
  }

  /** The night-by-night scan. */
  method PeakOccupied(occs: seq<Occupation>, roomId: string, from: Night, to: Night) returns (peakOccupied: nat)
    requires from <= to
    ensures peakOccupied == Peak(occs, roomId, from, to)
  {
    peakOccupied := 0;
    for night := from to to
      invariant peakOccupied == Peak(occs, roomId, from, night)
    {
      var dayOcc := 0;
      for i := 0 to |occs|
        invariant dayOcc == Load(occs[..i], roomId, night)
      {
        assert occs[..i + 1][..i] == occs[..i];
        var o := occs[i];
        if o.roomId != roomId { continue; }
        if o.fromDate <= night && night < o.toDate {
          dayOcc := dayOcc + Max(1, o.numRooms.GetOr(1));
        }
      }
      assert occs[..|occs|] == occs;
      if dayOcc > peakOccupied {
        peakOccupied := dayOcc;
      }
    }
  }

  /** The peak over the fetched occupations is the exact maximum over the whole tables. */
  lemma PeakOfTables(bids: seq<Bid>, blocks: seq<Block>, hotelId: string, roomId: string, from: Night, to: Night)
    requires from < to
    ensures var peak := Peak(Occupations(bids, blocks, hotelId, Some(roomId), from, to), roomId, from, to);
      && (forall n :: from <= n < to ==>
            BidLoad(bids, hotelId, roomId, n) + BlockLoad(blocks, hotelId, roomId, n) <= peak)
      && (exists n :: from <= n < to &&
            BidLoad(bids, hotelId, roomId, n) + BlockLoad(blocks, hotelId, roomId, n) == peak)
  {
    hide Occupations;
    var occs := Occupations(bids, blocks, hotelId, Some(roomId), from, to);
    forall n | from <= n < to
      ensures Load(occs, roomId, n) == BidLoad(bids, hotelId, roomId, n) + BlockLoad(blocks, hotelId, roomId, n)
    {
      NothingDropped(bids, blocks, hotelId, roomId, from, to, n);
    }
    var n :| from <= n < to && Load(occs, roomId, n) == Peak(occs, roomId, from, to);
    assert BidLoad(bids, hotelId, roomId, n) + BlockLoad(blocks, hotelId, roomId, n) == Peak(occs, roomId, from, to);
  }

  // ----- the peak is reached where somebody arrives -----

  /** The latest of `from` and the arrivals not after `n`. */
  function LastArrival(occs: seq<Occupation>, from: Night, n: Night): (s: Night)
    requires from <= n
    ensures from <= s <= n
    ensures s == from || exists i :: 0 <= i < |occs| && occs[i].fromDate == s
    ensures forall i :: 0 <= i < |occs| && occs[i].fromDate <= n ==> occs[i].fromDate <= s
  {
    if occs == [] then from
    else
      var s := LastArrival(occs[..|occs| - 1], from, n);
      var f := occs[|occs| - 1].fromDate;
      if s < f <= n then
        assert occs[|occs| - 1].fromDate == f;
        f
      else s
  }

  lemma {:induction false} ArrivalCarriesLoad(occs: seq<Occupation>, roomId: string, s: Night, n: Night)
    requires s <= n && forall i :: 0 <= i < |occs| && occs[i].fromDate <= n ==> occs[i].fromDate <= s
    ensures Load(occs, roomId, n) <= Load(occs, roomId, s)
  {
    if occs != [] {
      ArrivalCarriesLoad(occs[..|occs| - 1], roomId, s, n);
    }
  }

  predicate IsStartPoint(occs: seq<Occupation>, from: Night, to: Night, s: Night) {
    from <= s < to && (s == from || exists i :: 0 <= i < |occs| && occs[i].fromDate == s)
  }

  /** Check-in night plus every arrival inside the range. */
  function StartPoints(occs: seq<Occupation>, from: Night, to: Night): (r: seq<Night>)
    requires from < to
    ensures forall s :: s in r <==> IsStartPoint(occs, from, to, s)
  {
    if occs == [] then [from]
    else
      var rest := StartPoints(occs[..|occs| - 1], from, to);
      var f := occs[|occs| - 1].fromDate;
      assert forall i :: 0 <= i < |occs| - 1 ==> occs[..|occs| - 1][i] == occs[i];
      if from <= f < to then rest + [f] else rest
  }

  function MaxLoad(occs: seq<Occupation>, roomId: string, points: seq<Night>): (m: nat)
    ensures forall s :: s in points ==> Load(occs, roomId, s) <= m
    ensures points != [] ==> exists s :: s in points && Load(occs, roomId, s) == m
  {
    if points == [] then 0
    else Max(Load(occs, roomId, points[0]), MaxLoad(occs, roomId, points[1..]))
  }

  /** A sweep over arrivals finds the same peak as the night-by-night scan. */
  lemma SweepFindsPeak(occs: seq<Occupation>, roomId: string, from: Night, to: Night)
    requires from < to
    ensures Peak(occs, roomId, from, to) == MaxLoad(occs, roomId, StartPoints(occs, from, to))
    ensures exists s :: IsStartPoint(occs, from, to, s) && Load(occs, roomId, s) == Peak(occs, roomId, from, to)
  {
    var peak := Peak(occs, roomId, from, to);
    var n :| from <= n < to && Load(occs, roomId, n) == peak;
    var s := LastArrival(occs, from, n);
    ArrivalCarriesLoad(occs, roomId, s, n);
    assert IsStartPoint(occs, from, to, s);
    var points := StartPoints(occs, from, to);
    assert s in points;
    var best :| best in points && Load(occs, roomId, best) == MaxLoad(occs, roomId, points);
    assert IsStartPoint(occs, from, to, best);
  }

  // ----- unitDoubleBooked -----

  /** Nights an occupation and the query range share: [Lo, Hi). */
  function Lo(o: Occupation, from: Night): Night { Max(o.fromDate, from) }

  function Hi(o: Occupation, to: Night): Night { Min(o.toDate, to) }

  /** One assigned stay of two or more rooms, or two assigned stays, inside [from, to). */
  ghost predicate Clash(mine: seq<Occupation>, from: Night, to: Night) {
    || (exists i :: 0 <= i < |mine| && Rooms(mine[i].numRooms) >= 2 && Lo(mine[i], from) < Hi(mine[i], to))
    || (exists i, j :: 0 <= i < j < |mine| &&
          Max(Lo(mine[i], from), Lo(mine[j], from)) < Min(Hi(mine[i], to), Hi(mine[j], to)))
  }

  function UnitLoad(mine: seq<Occupation>, night: Night): nat {
    if mine == [] then 0
    else
      var o := mine[|mine| - 1];
      UnitLoad(mine[..|mine| - 1], night) + (if Covers(o, night) then Rooms(o.numRooms) else 0)
  }

  lemma {:induction false} UnitLoadPositive(mine: seq<Occupation>, night: Night)
    ensures UnitLoad(mine, night) >= 1 <==> exists i :: 0 <= i < |mine| && Covers(mine[i], night)
  {
    if mine != [] {
      UnitLoadPositive(mine[..|mine| - 1], night);
      assert Covers(mine[|mine| - 1], night) ==> UnitLoad(mine, night) >= 1;
    }
  }

  ghost predicate NightClash(mine: seq<Occupation>, night: Night) {
    || (exists i :: 0 <= i < |mine| && Rooms(mine[i].numRooms) >= 2 && Covers(mine[i], night))
    || (exists i, j :: 0 <= i < j < |mine| && Covers(mine[i], night) && Covers(mine[j], night))
  }

  lemma {:induction false} UnitLoadAboveOne(mine: seq<Occupation>, night: Night)
    ensures UnitLoad(mine, night) > 1 <==> NightClash(mine, night)
  {
    if mine != [] {
      var k := |mine| - 1;
      var (init, o) := (mine[..k], mine[k]);
      UnitLoadAboveOne(init, night);
      UnitLoadPositive(init, night);
      if UnitLoad(mine, night) > 1 && UnitLoad(init, night) <= 1 {
        assert Covers(o, night);
        if UnitLoad(init, night) == 1 {
          var i :| 0 <= i < |init| && Covers(init[i], night);
          assert Covers(mine[i], night);
        }
      }
      if NightClash(init, night) {
        assert forall i :: 0 <= i < k ==> init[i] == mine[i];
        assert NightClash(mine, night);
      }
      if NightClash(mine, night) && !NightClash(init, night) {
        assert forall i :: 0 <= i < k ==> init[i] == mine[i];
        assert Covers(o, night);
        if Rooms(o.numRooms) < 2 {
          var i :| 0 <= i < k && Covers(mine[i], night);
          assert Covers(init[i], night);
        }
      }
    }
  }

  lemma ClashGivesNight(mine: seq<Occupation>, from: Night, to: Night)
    requires Clash(mine, from, to)
    ensures exists n :: from <= n < to && NightClash(mine, n)
  {
    if i :| 0 <= i < |mine| && Rooms(mine[i].numRooms) >= 2 && Lo(mine[i], from) < Hi(mine[i], to) {
      assert NightClash(mine, Lo(mine[i], from));
    } else {
      var i, j :| 0 <= i < j < |mine| &&
          Max(Lo(mine[i], from), Lo(mine[j], from)) < Min(Hi(mine[i], to), Hi(mine[j], to));
      var n := Max(Lo(mine[i], from), Lo(mine[j], from));
      assert Covers(mine[i], n) && Covers(mine[j], n);
      assert NightClash(mine, n);
    }
  }

  lemma NightGivesClash(mine: seq<Occupation>, from: Night, to: Night, n: Night)
    requires from <= n < to && NightClash(mine, n)
    ensures Clash(mine, from, to)
  {
    if i :| 0 <= i < |mine| && Rooms(mine[i].numRooms) >= 2 && Covers(mine[i], n) {
      assert Lo(mine[i], from) < Hi(mine[i], to);
    } else {
      var i, j :| 0 <= i < j < |mine| && Covers(mine[i], n) && Covers(mine[j], n);
      assert Max(Lo(mine[i], from), Lo(mine[j], from)) < Min(Hi(mine[i], to), Hi(mine[j], to));
    }
  }

  /** Sharing a night inside the range is the pairwise test on clipped intervals. */
  lemma ClashNight(mine: seq<Occupation>, from: Night, to: Night)
    ensures Clash(mine, from, to) <==> exists n :: from <= n < to && NightClash(mine, n)
  {
    hide Clash, NightClash;
    if Clash(mine, from, to) {
      ClashGivesNight(mine, from, to);
    }
    if n :| from <= n < to && NightClash(mine, n) {
      NightGivesClash(mine, from, to, n);
    }
  }

  // ----- the unit's holders in the tables -----

  predicate AssignedTo(o: Occupation, unitId: string) {
    o.assignedUnitId == Some(unitId)
  }

  /** The occupations assigned to the unit, in table order. */
  function Mine(
      bids: seq<Bid>, blocks: seq<Block>, hotelId: string, unitId: string, from: Night, to: Night): seq<Occupation>
  {
    Filter(Occupations(bids, blocks, hotelId, None, from, to), o => AssignedTo(o, unitId))
  }

  function BidUnitWeight(b: Bid, hotelId: string, unitId: string, night: Night): nat {
    if b.hotelId == hotelId && b.unitId == Some(unitId) && Blocking(b.status)
       && b.checkIn.Some? && b.checkOut.Some? && b.checkIn.value <= night < b.checkOut.value
    then Rooms(b.numRooms) else 0
  }

  function BlockUnitWeight(b: Block, hotelId: string, unitId: string, night: Night): nat {
    if b.hotelId == hotelId && b.unitId == Some(unitId) && b.fromDate <= night < b.toDate then 1 else 0
  }

  /** How many times the unit is sold on a night, straight from the tables. */
  function BidSales(bids: seq<Bid>, hotelId: string, unitId: string, night: Night): nat {
    if bids == [] then 0
    else BidSales(bids[..|bids| - 1], hotelId, unitId, night) + BidUnitWeight(bids[|bids| - 1], hotelId, unitId, night)
  }

  function BlockSales(blocks: seq<Block>, hotelId: string, unitId: string, night: Night): nat {
    if blocks == [] then 0
    else BlockSales(blocks[..|blocks| - 1], hotelId, unitId, night)
         + BlockUnitWeight(blocks[|blocks| - 1], hotelId, unitId, night)
  }

  lemma UnitLoadConcat(a: seq<Occupation>, b: seq<Occupation>, night: Night)
    ensures UnitLoad(a + b, night) == UnitLoad(a, night) + UnitLoad(b, night)
  {
    if b == [] {
      assert a + b == a;
    } else {
      assert (a + b)[..|a + b| - 1] == a + b[..|b| - 1];
      UnitLoadConcat(a, b[..|b| - 1], night);
    }
  }

  function Assigned(occs: seq<Occupation>, unitId: string): seq<Occupation> {
    Filter(occs, o => AssignedTo(o, unitId))
  }

  lemma AssignedAppend(occs: seq<Occupation>, last: seq<Occupation>, unitId: string, night: Night)
    ensures UnitLoad(Assigned(occs + last, unitId), night)
         == UnitLoad(Assigned(occs, unitId), night) + UnitLoad(Assigned(last, unitId), night)
  {
    FilterConcat(occs, last, o => AssignedTo(o, unitId));
    UnitLoadConcat(Assigned(occs, unitId), Assigned(last, unitId), night);
  }

  lemma AssignedOne(o: Occupation, unitId: string, night: Night)
    ensures UnitLoad(Assigned([o], unitId), night)
         == if AssignedTo(o, unitId) && Covers(o, night) then Rooms(o.numRooms) else 0
  {
    FilterOne(o, x => AssignedTo(x, unitId));
    assert [o][..0] == [];
  }

  lemma {:induction false} BidSalesKept(
      bids: seq<Bid>, hotelId: string, unitId: string, from: Night, to: Night, night: Night)
    requires from <= night < to
    ensures UnitLoad(Assigned(BidOccupations(bids, hotelId, None, from, to), unitId), night)
         == BidSales(bids, hotelId, unitId, night)
  {
    hide Assigned, UnitLoad;
    if bids == [] {
      NothingAssigned(unitId, night);
    } else {
      var (init, b) := (bids[..|bids| - 1], bids[|bids| - 1]);
      BidSalesKept(init, hotelId, unitId, from, to, night);
      AssignedAppend(BidOccupations(init, hotelId, None, from, to),
                     BidOccupation(b, hotelId, None, from, to), unitId, night);
      NothingAssigned(unitId, night);
      if b.checkIn.Some? && b.checkOut.Some? { AssignedOne(OfBid(b), unitId, night); }
    }
  }

  lemma {:induction false} BlockSalesKept(
      blocks: seq<Block>, hotelId: string, unitId: string, from: Night, to: Night, night: Night)
    requires from <= night < to
    ensures UnitLoad(Assigned(BlockOccupations(blocks, hotelId, None, from, to), unitId), night)
         == BlockSales(blocks, hotelId, unitId, night)
  {
    hide Assigned, UnitLoad;
    NothingAssigned(unitId, night);
    if blocks != [] {
      var (init, b) := (blocks[..|blocks| - 1], blocks[|blocks| - 1]);
      BlockSalesKept(init, hotelId, unitId, from, to, night);
      AssignedAppend(BlockOccupations(init, hotelId, None, from, to),
                     BlockOccupation(b, hotelId, None, from, to), unitId, night);
      AssignedOne(OfBlock(b), unitId, night);
    }
  }

  lemma NothingAssigned(unitId: string, night: Night)
    ensures UnitLoad(Assigned([], unitId), night) == 0
  {
  }

  /** Some night in the range is sold more than once to the unit, counted over all its rows in the tables. */
  ghost predicate SoldTwice(
      bids: seq<Bid>, blocks: seq<Block>, hotelId: string, unitId: string, from: Night, to: Night)
  {
    exists n :: from <= n < to && BidSales(bids, hotelId, unitId, n) + BlockSales(blocks, hotelId, unitId, n) > 1
  }

  lemma ClashIsSoldTwice(bids: seq<Bid>, blocks: seq<Block>, hotelId: string, unitId: string, from: Night, to: Night)
    ensures Clash(Mine(bids, blocks, hotelId, unitId, from, to), from, to)
       <==> SoldTwice(bids, blocks, hotelId, unitId, from, to)
  {
    hide Clash, NightClash, Assigned;
    var mine := Mine(bids, blocks, hotelId, unitId, from, to);
    MineIsAssigned(bids, blocks, hotelId, unitId, from, to);
    forall n | from <= n < to
      ensures NightClash(mine, n) <==> BidSales(bids, hotelId, unitId, n) + BlockSales(blocks, hotelId, unitId, n) > 1
    {
      UnitLoadAboveOne(mine, n);
      BidSalesKept(bids, hotelId, unitId, from, to, n);
      BlockSalesKept(blocks, hotelId, unitId, from, to, n);
      AssignedAppend(BidOccupations(bids, hotelId, None, from, to),
                     BlockOccupations(blocks, hotelId, None, from, to), unitId, n);
    }
    ClashNight(mine, from, to);
  }

  lemma MineIsAssigned(bids: seq<Bid>, blocks: seq<Block>, hotelId: string, unitId: string, from: Night, to: Night)
    ensures Mine(bids, blocks, hotelId, unitId, from, to)
         == Assigned(BidOccupations(bids, hotelId, None, from, to)
                     + BlockOccupations(blocks, hotelId, None, from, to), unitId)
  {
  }

  /** True exactly when the unit's assigned stays clash inside [from, to). */
  method UnitDoubleBooked(bids: seq<Bid>, blocks: seq<Block>, hotelId: string, unitId: string, from: Night, to: Night)
    returns (r: bool)
    ensures r <==> hotelId != "" && unitId != "" && Clash(Mine(bids, blocks, hotelId, unitId, from, to), from, to)
    ensures r <==> hotelId != "" && unitId != "" && SoldTwice(bids, blocks, hotelId, unitId, from, to)
  {
    hide Clash, SoldTwice, Occupations;
    ClashIsSoldTwice(bids, blocks, hotelId, unitId, from, to);
    if hotelId == "" || unitId == "" || from >= to {
      NoNightsNoClash(Mine(bids, blocks, hotelId, unitId, from, to), from, to);
      return false;
    }
    var occs := GetOccupations(bids, blocks, hotelId, None, from, to);
    var mine := Filter(occs, o => AssignedTo(o, unitId));
    r := SharedNight(mine, from, to);
  }

  lemma NoNightsNoClash(mine: seq<Occupation>, from: Night, to: Night)
    ensures from >= to ==> !Clash(mine, from, to)
  {
  }

  method SharedNight(mine: seq<Occupation>, from: Night, to: Night) returns (r: bool)
    ensures r <==> Clash(mine, from, to)
  {
    hide NightClash, Clash;
    ClashNight(mine, from, to);
    for night := from to Max(from, to)
      invariant forall n :: from <= n < night ==> !NightClash(mine, n)
    {
      var c := 0;
      for i := 0 to |mine|
        invariant c == UnitLoad(mine[..i], night)
      {
        assert mine[..i + 1][..i] == mine[..i];
        var o := mine[i];
        if o.fromDate <= night && night < o.toDate {
          c := c + Max(1, o.numRooms.GetOr(1));
        }
      }
      assert mine[..|mine|] == mine;
      UnitLoadAboveOne(mine, night);
      if c > 1 {
        return true;
      }
    }
    return false;
  }

  /** Between real bounds every fetched stay of at least a night holds a night of the query. */
  lemma FetchedHoldsANight(
      bids: seq<Bid>, blocks: seq<Block>, hotelId: string, roomId: Option<string>,
      from: Night, to: Night, o: Occupation)
    requires from < to && o in Occupations(bids, blocks, hotelId, roomId, from, to) && o.fromDate < o.toDate
    ensures o.hotelId == hotelId && (roomId.Some? ==> o.roomId == roomId.value)
    ensures exists night :: from <= night < to && Covers(o, night)
  {
    if o in BidOccupations(bids, hotelId, roomId, from, to) {
      var b := BidFetched(bids, hotelId, roomId, from, to, o);
    } else {
      var b := BlockFetched(blocks, hotelId, roomId, from, to, o);
    }
    assert from <= Max(o.fromDate, from) < to && Covers(o, Max(o.fromDate, from));
  }

  /** Whatever is fetched carries the fields of its own row. */
  lemma FetchedIsARow(
      bids: seq<Bid>, blocks: seq<Block>, hotelId: string, roomId: Option<string>,
      from: Night, to: Night, o: Occupation)
    requires o in Occupations(bids, blocks, hotelId, roomId, from, to)
    ensures
      || (exists b :: b in bids && b.checkIn == Some(o.fromDate) && b.checkOut == Some(o.toDate)
            && b.hotelId == o.hotelId && b.roomId == o.roomId && b.id == o.refId && b.unitId == o.assignedUnitId
            && o.numRooms == Some(if b.numRooms.Some? && b.numRooms.value > 1 then b.numRooms.value else 1))
      || (exists b :: b in blocks && b.fromDate == o.fromDate && b.toDate == o.toDate && b.hotelId == o.hotelId
            && b.roomId == o.roomId && b.id == o.refId && b.unitId == o.assignedUnitId && o.numRooms == Some(1))
  {
    if o in BidOccupations(bids, hotelId, roomId, from, to) {
      var b := BidFetched(bids, hotelId, roomId, from, to, o);
    } else {
      var b := BlockFetched(blocks, hotelId, roomId, from, to, o);
    }
  }

  lemma BidFetched(bids: seq<Bid>, hotelId: string, roomId: Option<string>, from: Night, to: Night, o: Occupation)
    returns (b: Bid)
    requires o in BidOccupations(bids, hotelId, roomId, from, to)
    ensures b in bids && [o] == BidOccupation(b, hotelId, roomId, from, to)
  {
    b := bids[|bids| - 1];
    if o in BidOccupations(bids[..|bids| - 1], hotelId, roomId, from, to) {
      b := BidFetched(bids[..|bids| - 1], hotelId, roomId, from, to, o);
    }
  }

  lemma BlockFetched(blocks: seq<Block>, hotelId: string, roomId: Option<string>, from: Night, to: Night, o: Occupation)
    returns (b: Block)
    requires o in BlockOccupations(blocks, hotelId, roomId, from, to)
    ensures b in blocks && [o] == BlockOccupation(b, hotelId, roomId, from, to)
  {
    b := blocks[|blocks| - 1];
    if o in BlockOccupations(blocks[..|blocks| - 1], hotelId, roomId, from, to) {
      b := BlockFetched(blocks[..|blocks| - 1], hotelId, roomId, from, to, o);
    }
  }
}
