/**
 One import run of an OTA calendar feed: new events become room blocks, imported blocks whose event
 is gone are deleted. Whether an event is new and whether a block is cancelled is decided by UID alone.
 */
module ChannelSync {
  import opened Base
  import opened Text
  import A = Availability
  import C = Calendar
  import I = ICal
  import R = InventoryRun

  const MAX_EVENTS_PER_FEED := 500
  const DELETE_CHUNK := 50
  const OTA := "ota_ical"

  /** A room_blocks row; `ref` is its externalRef, "" when it has none; dates are date columns as text. */
  datatype Row = Row(
    id: string, hotelId: string, roomId: string, fromDate: string, toDate: string,
    feedId: string, source: string, ref: string, unitId: Option<string>)

  datatype Feed = Feed(id: string, hotelId: string, roomId: string, unitId: Option<string>)

  /** An event with everything the import needs. */
  datatype Booking = Booking(uid: string, fromDate: string, toDate: string)

  // ----- the usable events of a feed -----

  predicate Usable(e: I.Event) {
    e.uid.GetOr("") != "" && e.start.Some? && e.end.Some? && StrLess(e.start.value, e.end.value)
  }

  function BookingOf(e: I.Event): seq<Booking> {
    if Usable(e) then [Booking(e.uid.value, e.start.value, e.end.value)] else []
  }

  function UsableBookings(events: seq<I.Event>): seq<Booking> {
    if events == [] then []
    else BookingOf(events[0]) + UsableBookings(events[1..])
  }

  lemma UsableNamed(events: seq<I.Event>)
    ensures forall b :: b in UsableBookings(events) ==> b.uid != ""
  {
  }

  /** filter, then slice(0, MAX_EVENTS_PER_FEED) */
  function Bookings(text: string): (r: seq<Booking>)
    ensures |r| <= MAX_EVENTS_PER_FEED && forall b :: b in r ==> b.uid != ""
  {
    UsableNamed(I.Parsed(text));
    var all := UsableBookings(I.Parsed(text));
    if |all| <= MAX_EVENTS_PER_FEED then all else all[..MAX_EVENTS_PER_FEED]
  }

  /** The first 500 usable events of the feed, in order; so all of them when there are no more. */
  lemma BookingsAreTheFirst(text: string)
    ensures Bookings(text) <= UsableBookings(I.Parsed(text))
    ensures |Bookings(text)| == Min(500, |UsableBookings(I.Parsed(text))|)
  {
  }

  // ----- what is new and what is cancelled -----

  predicate Names(bookings: seq<Booking>, uid: string) {
    exists b :: b in bookings && b.uid == uid
  }

  /** Some row of the feed carries this UID, whatever its source and dates. */
  predicate Stored(rows: seq<Row>, feedId: string, uid: string) {
    exists r :: r in rows && r.feedId == feedId && r.ref == uid
  }

  function Missing(rows: seq<Row>, feedId: string, bookings: seq<Booking>): (m: seq<Booking>)
    ensures forall b :: b in m <==> b in bookings && !Stored(rows, feedId, b.uid)
  {
    Filter(bookings, (b: Booking) => !Stored(rows, feedId, b.uid))
  }

  /** An imported block of the feed that has not ended before today. */
  predicate Live(r: Row, feedId: string, today: string) {
    r.feedId == feedId && r.source == OTA && r.ref != "" && !StrLess(r.toDate, today)
  }

  /** The UID is gone from the feed: the booking counts as cancelled. */
  predicate Cancelled(r: Row, feedId: string, bookings: seq<Booking>, today: string) {
    Live(r, feedId, today) && !Names(bookings, r.ref)
  }

  function Kept(rows: seq<Row>, feedId: string, bookings: seq<Booking>, today: string): (k: seq<Row>)
    ensures forall r :: r in k <==> r in rows && !Cancelled(r, feedId, bookings, today)
  {
    Filter(rows, (r: Row) => !Cancelled(r, feedId, bookings, today))
  }

  predicate Readable(b: Booking) { C.ParseIso(b.fromDate).Some? && C.ParseIso(b.toDate).Some? }

  function NewRow(feed: Feed, id: string, b: Booking): Row {
    Row(id, feed.hotelId, feed.roomId, b.fromDate, b.toDate, feed.id, OTA, b.uid, feed.unitId)
  }

  /** One row for each booking, under ids the database generates. */
  function NewRows(feed: Feed, ids: seq<string>, bookings: seq<Booking>): (r: seq<Row>)
    requires |bookings| <= |ids|
    ensures |r| == |bookings| && forall i :: 0 <= i < |r| ==> r[i] == NewRow(feed, ids[i], bookings[i])
  {
    seq(|bookings|, i requires 0 <= i < |bookings| => NewRow(feed, ids[i], bookings[i]))
  }

  /** The unit guard of the table: whether it refuses a row, given the rows already there. */
  type Guard = (seq<Row>, Row) -> bool

  /** The rows the table takes when they are offered one after another. */
  function Accepted(rows: seq<Row>, added: seq<Row>, refuses: Guard): seq<Row>
    decreases added
  {
    if added == [] then []
    else if refuses(rows, added[0]) then Accepted(rows, added[1..], refuses)
    else [added[0]] + Accepted(rows + [added[0]], added[1..], refuses)
  }

  // ----- one sync -----

  datatype Result = Failed | Done(rows: seq<Row>)

  predicate IsCalendar(text: string) { Includes(Upper(text), "BEGIN:VCALENDAR") }

  /** The table after a sync of the feed with the fetched text; None when nothing could be fetched. */
  function Synced(
      rows: seq<Row>, feed: Feed, text: Option<string>, today: string, ids: seq<string>, refuses: Guard): Result
    requires |ids| == MAX_EVENTS_PER_FEED
  {
    if text.None? || !IsCalendar(text.value) then Failed
    else
      var bookings := Bookings(text.value);
      var missing := Missing(rows, feed.id, bookings);
      MissingFits(rows, feed.id, bookings);
      if exists b :: b in missing && !Readable(b) then Failed
      else Done(Kept(rows, feed.id, bookings, today) + Accepted(rows, NewRows(feed, ids, missing), refuses))
  }

  lemma FilterShrinks<T(!new)>(s: seq<T>, p: T -> bool)
    ensures |Filter(s, p)| <= |s|
  {
  }

  lemma MissingFits(rows: seq<Row>, feedId: string, bookings: seq<Booking>)
    ensures |Missing(rows, feedId, bookings)| <= |bookings|
  {
    FilterShrinks(bookings, (b: Booking) => !Stored(rows, feedId, b.uid));
  }

  /** Ids are the primary key, and generated ids are new. */
  ghost predicate KeyedRows(rows: seq<Row>, ids: seq<string>) {
    && (forall i, j :: 0 <= i < j < |rows| ==> rows[i].id != rows[j].id)
    && (forall r :: r in rows ==> r.id !in ids)
  }

  function DeleteIds(rows: seq<Row>, ids: seq<string>): seq<Row> {
    Filter(rows, (r: Row) => !(r.id in ids && r.source == OTA))
  }

  function IdsOf(rows: seq<Row>): (r: seq<string>)
    ensures |r| == |rows| && forall i :: 0 <= i < |rows| ==> r[i] == rows[i].id
  {
    seq(|rows|, i requires 0 <= i < |rows| => rows[i].id)
  }

  lemma DeleteMore(rows: seq<Row>, a: seq<string>, b: seq<string>)
    ensures DeleteIds(DeleteIds(rows, a), b) == DeleteIds(rows, a + b)
  {
    var (p, q) := ((r: Row) => !(r.id in a && r.source == OTA), (r: Row) => !(r.id in b && r.source == OTA));
    FilterTwice(rows, p, q, (r: Row) => !(r.id in a + b && r.source == OTA));
  }

  lemma DeleteNothing(rows: seq<Row>)
    ensures DeleteIds(rows, []) == rows
  {
    FilterKeepsAll(rows, (r: Row) => !(r.id in [] && r.source == OTA));
  }

  lemma {:induction false} AcceptedAmong(rows: seq<Row>, added: seq<Row>, refuses: Guard)
    ensures forall r :: r in Accepted(rows, added, refuses) ==> r in added
    decreases added
  {
    if added != [] {
      AcceptedAmong(rows, added[1..], refuses);
      AcceptedAmong(rows + [added[0]], added[1..], refuses);
    }
  }

  /** Deleting the cancelled rows by id keeps every other row, the new ones included. */
  lemma DeletesTheCancelled(
      rows: seq<Row>, added: seq<Row>, ids: seq<string>, feedId: string, bookings: seq<Booking>, today: string)
    requires KeyedRows(rows, ids) && forall r :: r in added ==> r.id in ids
    ensures var gone := Filter(rows, (r: Row) => Cancelled(r, feedId, bookings, today));
      DeleteIds(rows + added, IdsOf(gone)) == Kept(rows, feedId, bookings, today) + added
  {
    hide Cancelled;
    var gone := Filter(rows, (r: Row) => Cancelled(r, feedId, bookings, today));
    var dead := IdsOf(gone);
    var p := (r: Row) => !(r.id in dead && r.source == OTA);
    forall r | r in rows ensures p(r) <==> !Cancelled(r, feedId, bookings, today) {
      if Cancelled(r, feedId, bookings, today) {
        var i :| 0 <= i < |gone| && gone[i] == r;
        assert dead[i] == r.id;
        CancelledIsOta(r, feedId, bookings, today);
      } else if r.id in dead {
        var i :| 0 <= i < |dead| && dead[i] == r.id;
        SameIdSameRow(rows, ids, r, gone[i]);
      }
    }
    forall id | id in dead ensures id !in ids {
      var i :| 0 <= i < |dead| && dead[i] == id;
      assert gone[i] in rows;
    }
    FilterConcat(rows, added, p);
    FilterKeepsAll(added, p);
    FilterSame(rows, p, (r: Row) => !Cancelled(r, feedId, bookings, today));
  }

  lemma CancelledIsOta(r: Row, feedId: string, bookings: seq<Booking>, today: string)
    ensures Cancelled(r, feedId, bookings, today) ==> r.source == OTA
  {
  }

  lemma SameIdSameRow(rows: seq<Row>, ids: seq<string>, a: Row, b: Row)
    requires KeyedRows(rows, ids) && a in rows && b in rows && a.id == b.id
    ensures a == b
  {
    var i, j :| 0 <= i < |rows| && 0 <= j < |rows| && rows[i] == a && rows[j] == b;
  }

  /** The import run: batch insert, else row by row; then the cancelled blocks go, a chunk at a time. */
  method Sync(
      rows: seq<Row>, feed: Feed, text: Option<string>, today: string, ids: seq<string>, refuses: Guard)
    returns (result: Result)
    requires |ids| == MAX_EVENTS_PER_FEED && KeyedRows(rows, ids)
    ensures result == Synced(rows, feed, text, today, ids, refuses)
  {
    hide KeyedRows, Missing, Bookings, Kept, Cancelled, Readable, IsCalendar;
    if text.None? || !IsCalendar(text.value) {
      return Failed;
    }
    var bookings := Bookings(text.value);
    var missing := Missing(rows, feed.id, bookings);
    MissingFits(rows, feed.id, bookings);
    if exists b :: b in missing && !Readable(b) {
      return Failed;
    }
    var table := Insert(rows, NewRows(feed, ids, missing), refuses);
    ghost var taken := Accepted(rows, NewRows(feed, ids, missing), refuses);
    AcceptedAmong(rows, NewRows(feed, ids, missing), refuses);
    var toRemove := Filter(rows, (r: Row) => Cancelled(r, feed.id, bookings, today));
    table := RemoveInChunks(table, IdsOf(toRemove));
    DeletesTheCancelled(rows, taken, ids, feed.id, bookings, today);
    return Done(table);
  }

  method Insert(rows: seq<Row>, added: seq<Row>, refuses: Guard) returns (table: seq<Row>)
    ensures table == rows + Accepted(rows, added, refuses)
  {
    if Accepted(rows, added, refuses) == added {
      return rows + added;
    }
    table := rows;
    for i := 0 to |added|
      invariant table + Accepted(table, added[i..], refuses) == rows + Accepted(rows, added, refuses)
    {
      assert added[i..][0] == added[i] && added[i..][1..] == added[i + 1..];
      if !refuses(table, added[i]) {
        assert table + ([added[i]] + Accepted(table + [added[i]], added[i + 1..], refuses))
            == table + [added[i]] + Accepted(table + [added[i]], added[i + 1..], refuses);
        table := table + [added[i]];
      }
    }
  }

  method RemoveInChunks(rows: seq<Row>, ids: seq<string>) returns (table: seq<Row>)
    ensures table == DeleteIds(rows, ids)
  {
    hide DeleteIds;
    table := rows;
    DeleteNothing(rows);
    var i := 0;
    while i < |ids|
      invariant 0 <= i <= |ids| && table == DeleteIds(rows, ids[..i])
    {
      var next := Min(i + DELETE_CHUNK, |ids|);
      DeleteMore(rows, ids[..i], ids[i..next]);
      assert ids[..i] + ids[i..next] == ids[..next];
      table := DeleteIds(table, ids[i..next]);
      i := next;
    }
    assert ids[..|ids|] == ids;
  }

  // ----- what a sync with no refused row achieves -----

  /** The table after a sync in which the guard refuses nothing. */
  function AfterSync(rows: seq<Row>, feed: Feed, bookings: seq<Booking>, today: string, ids: seq<string>): seq<Row>
    requires |bookings| <= |ids|
  {
    MissingFits(rows, feed.id, bookings);
    Kept(rows, feed.id, bookings, today) + NewRows(feed, ids, Missing(rows, feed.id, bookings))
  }

  lemma SyncedUnrefused(
      rows: seq<Row>, feed: Feed, text: string, today: string, ids: seq<string>, refuses: Guard)
    requires |ids| == MAX_EVENTS_PER_FEED && IsCalendar(text)
    requires forall b :: b in Missing(rows, feed.id, Bookings(text)) ==> Readable(b)
    requires forall table, row :: !refuses(table, row)
    ensures Synced(rows, feed, Some(text), today, ids, refuses)
         == Done(AfterSync(rows, feed, Bookings(text), today, ids))
  {
    hide IsCalendar, Bookings, Kept, Missing, Readable;
    var missing := Missing(rows, feed.id, Bookings(text));
    MissingFits(rows, feed.id, Bookings(text));
    AllAccepted(rows, NewRows(feed, ids, missing), refuses);
  }

  lemma {:induction false} AllAccepted(rows: seq<Row>, added: seq<Row>, refuses: Guard)
    requires forall table, row :: !refuses(table, row)
    ensures Accepted(rows, added, refuses) == added
    decreases added
  {
    if added != [] { AllAccepted(rows + [added[0]], added[1..], refuses); }
  }

  lemma NewRowsMembers(feed: Feed, ids: seq<string>, bookings: seq<Booking>)
    requires |bookings| <= |ids|
    ensures forall r :: r in NewRows(feed, ids, bookings) ==>
      exists b :: b in bookings && r == NewRow(feed, r.id, b) && r.id in ids
    ensures forall b :: b in bookings ==>
      exists r :: r in NewRows(feed, ids, bookings) && r == NewRow(feed, r.id, b)
  {
    var rows := NewRows(feed, ids, bookings);
    forall b | b in bookings ensures exists r :: r in rows && r == NewRow(feed, r.id, b) {
      var i :| 0 <= i < |bookings| && bookings[i] == b;
      assert rows[i] in rows;
    }
    forall r | r in rows ensures exists b :: b in bookings && r == NewRow(feed, r.id, b) && r.id in ids {
      var i :| 0 <= i < |rows| && rows[i] == r;
      assert bookings[i] in bookings && ids[i] in ids;
    }
  }

  /** Some live block of the feed carries the UID. */
  predicate LiveUid(rows: seq<Row>, feedId: string, today: string, uid: string) {
    exists r :: r in rows && Live(r, feedId, today) && r.ref == uid
  }

  /** Some event with this UID ends today or later. */
  predicate Upcoming(bookings: seq<Booking>, today: string, uid: string) {
    exists b :: b in bookings && b.uid == uid && !StrLess(b.toDate, today)
  }

  /** Stored UIDs keep the blocks they have; new ones get blocks with the dates of their events. */
  predicate StaysLive(rows: seq<Row>, feedId: string, bookings: seq<Booking>, today: string, uid: string) {
    if Stored(rows, feedId, uid) then LiveUid(rows, feedId, today, uid) else Upcoming(bookings, today, uid)
  }

  /** A UID is live afterwards: it is in the feed, and was live before or is new and not past. */
  lemma LiveAfter(
      rows: seq<Row>, feed: Feed, bookings: seq<Booking>, today: string, ids: seq<string>, uid: string)
    requires |bookings| <= |ids| && forall b :: b in bookings ==> b.uid != ""
    ensures LiveUid(AfterSync(rows, feed, bookings, today, ids), feed.id, today, uid)
       <==> Names(bookings, uid) && StaysLive(rows, feed.id, bookings, today, uid)
  {
    hide Kept, Missing, NewRows, StrLess;
    var missing := Missing(rows, feed.id, bookings);
    MissingFits(rows, feed.id, bookings);
    NewRowsMembers(feed, ids, missing);
    var (kept, made) := (Kept(rows, feed.id, bookings, today), NewRows(feed, ids, missing));
    assert AfterSync(rows, feed, bookings, today, ids) == kept + made;
  }

  /**
   After a sync nothing is live that the feed does not name; and the live UIDs are exactly the feed's
   exactly when every stored UID of the feed has a live block and every new one an event not yet past.
   */
  lemma LiveUidsExactly(rows: seq<Row>, feed: Feed, bookings: seq<Booking>, today: string, ids: seq<string>)
    requires |bookings| <= |ids| && forall b :: b in bookings ==> b.uid != ""
    ensures var after := AfterSync(rows, feed, bookings, today, ids);
      && (forall uid :: LiveUid(after, feed.id, today, uid) ==> Names(bookings, uid))
      && ((forall uid :: LiveUid(after, feed.id, today, uid) <==> Names(bookings, uid))
          <==> forall b :: b in bookings ==> StaysLive(rows, feed.id, bookings, today, b.uid))
  {
    hide AfterSync, StaysLive, LiveUid;
    var after := AfterSync(rows, feed, bookings, today, ids);
    forall uid
      ensures LiveUid(after, feed.id, today, uid)
         <==> Names(bookings, uid) && StaysLive(rows, feed.id, bookings, today, uid)
    {
      LiveAfter(rows, feed, bookings, today, ids, uid);
    }
    forall b | b in bookings ensures Names(bookings, b.uid) {
    }
  }

  /** The row is of this feed and carries the UID and both dates of the booking. */
  predicate Holds(r: Row, feedId: string, b: Booking) {
    r.feedId == feedId && r.ref == b.uid && r.fromDate == b.fromDate && r.toDate == b.toDate
  }

  predicate HeldBy(rows: seq<Row>, feedId: string, b: Booking) {
    exists r :: r in rows && Holds(r, feedId, b)
  }

  predicate Announced(bookings: seq<Booking>, feedId: string, r: Row) {
    exists b :: b in bookings && Holds(r, feedId, b)
  }

  /** Every event has a block with its dates, and every live block an event with its dates. */
  ghost predicate Mirrors(rows: seq<Row>, feedId: string, bookings: seq<Booking>, today: string) {
    && (forall b :: b in bookings ==> HeldBy(rows, feedId, b))
    && (forall r :: r in rows && Live(r, feedId, today) ==> Announced(bookings, feedId, r))
  }

  /** The stored UIDs that the feed still names kept their dates. */
  ghost predicate DatesUnchanged(rows: seq<Row>, feedId: string, bookings: seq<Booking>, today: string) {
    && (forall b :: b in bookings && Stored(rows, feedId, b.uid) ==> HeldBy(rows, feedId, b))
    && (forall r :: r in rows && Live(r, feedId, today) && Names(bookings, r.ref) ==> Announced(bookings, feedId, r))
  }

  lemma HeldAfter(rows: seq<Row>, feed: Feed, bookings: seq<Booking>, today: string, ids: seq<string>, b: Booking)
    requires |bookings| <= |ids| && b in bookings
    ensures HeldBy(AfterSync(rows, feed, bookings, today, ids), feed.id, b)
       <==> !Stored(rows, feed.id, b.uid) || HeldBy(rows, feed.id, b)
  {
    hide Kept, Missing, NewRows, StrLess;
    var missing := Missing(rows, feed.id, bookings);
    MissingFits(rows, feed.id, bookings);
    NewRowsMembers(feed, ids, missing);
    var (kept, made) := (Kept(rows, feed.id, bookings, today), NewRows(feed, ids, missing));
    var after := AfterSync(rows, feed, bookings, today, ids);
    assert after == kept + made;
    assert Names(bookings, b.uid);
    if !Stored(rows, feed.id, b.uid) {
      var r :| r in made && r == NewRow(feed, r.id, b);
      assert r in after && Holds(r, feed.id, b);
    } else if HeldBy(rows, feed.id, b) {
      var r :| r in rows && Holds(r, feed.id, b);
      assert r in after;
    }
  }

  lemma LiveRowsAfter(rows: seq<Row>, feed: Feed, bookings: seq<Booking>, today: string, ids: seq<string>)
    requires |bookings| <= |ids|
    ensures var after := AfterSync(rows, feed, bookings, today, ids);
      (forall r :: r in after && Live(r, feed.id, today) ==> Announced(bookings, feed.id, r))
      <==> (forall r :: r in rows && Live(r, feed.id, today) && Names(bookings, r.ref) ==>
              Announced(bookings, feed.id, r))
  {
    hide Kept, Missing, NewRows, StrLess, Live;
    var missing := Missing(rows, feed.id, bookings);
    MissingFits(rows, feed.id, bookings);
    NewRowsMembers(feed, ids, missing);
    var (kept, made) := (Kept(rows, feed.id, bookings, today), NewRows(feed, ids, missing));
    assert AfterSync(rows, feed, bookings, today, ids) == kept + made;
    forall r | r in made ensures Announced(bookings, feed.id, r) {
      var b :| b in missing && r == NewRow(feed, r.id, b);
      assert Holds(r, feed.id, b);
    }
  }

  /** After a sync the blocks show the feed's dates exactly when no stored UID changed its dates. */
  lemma DatesMatchExactly(rows: seq<Row>, feed: Feed, bookings: seq<Booking>, today: string, ids: seq<string>)
    requires |bookings| <= |ids|
    ensures Mirrors(AfterSync(rows, feed, bookings, today, ids), feed.id, bookings, today)
       <==> DatesUnchanged(rows, feed.id, bookings, today)
  {
    hide AfterSync, Stored, HeldBy, Live, Announced, Names;
    forall b | b in bookings
      ensures HeldBy(AfterSync(rows, feed, bookings, today, ids), feed.id, b)
         <==> !Stored(rows, feed.id, b.uid) || HeldBy(rows, feed.id, b)
    {
      HeldAfter(rows, feed, bookings, today, ids, b);
    }
    LiveRowsAfter(rows, feed, bookings, today, ids);
  }

  /** A booking moved by the OTA under the same UID keeps its old nights. */
  lemma MovedBookingStays()
    ensures var row := Row("1", "h", "r", "2030-01-05", "2030-01-07", "f", OTA, "u", None);
      var moved := Booking("u", "2030-02-05", "2030-02-07");
      AfterSync([row], Feed("f", "h", "r", None), [moved], "2030-01-01", ["2"]) == [row]
  {
    var row := Row("1", "h", "r", "2030-01-05", "2030-01-07", "f", OTA, "u", None);
    var moved := Booking("u", "2030-02-05", "2030-02-07");
    assert row in [row] && Stored([row], "f", "u");
    assert moved in [moved] && Names([moved], "u");
    FilterOne(moved, (b: Booking) => !Stored([row], "f", b.uid));
    FilterOne(row, (r: Row) => !Cancelled(r, "f", [moved], "2030-01-01"));
  }

  // ----- syncing again -----

  lemma LaterIsLive(r: Row, feedId: string, today: string, later: string)
    requires !StrLess(later, today) && Live(r, feedId, later)
    ensures Live(r, feedId, today)
  {
    StrLessTotal(r.toDate, today);
    StrLessTotal(today, later);
    if StrLess(r.toDate, today) && StrLess(today, later) { StrLessTransitive(r.toDate, today, later); }
  }

  /**
   Whatever the guard refused, a second sync with the same events, then or later, removes nothing and
   inserts only events that were refused before; with nothing refused it changes nothing.
   */
  lemma SecondSyncOnlyRetries(
      rows: seq<Row>, feed: Feed, bookings: seq<Booking>, today: string, later: string, taken: seq<Row>)
    requires !StrLess(later, today)
    requires forall r :: r in taken ==> Names(bookings, r.ref) && r.feedId == feed.id
    ensures var after := Kept(rows, feed.id, bookings, today) + taken;
      && Kept(after, feed.id, bookings, later) == after
      && (forall b :: b in Missing(after, feed.id, bookings) <==>
            b in Missing(rows, feed.id, bookings) && forall r :: r in taken ==> r.ref != b.uid)
  {
    hide Kept, Missing, Live, StrLess;
    var after := Kept(rows, feed.id, bookings, today) + taken;
    forall r | r in after ensures !Cancelled(r, feed.id, bookings, later) {
      if Live(r, feed.id, later) { LaterIsLive(r, feed.id, today, later); }
    }
    KeepsAll(after, feed.id, bookings, later);
    forall b | b in bookings
      ensures Stored(after, feed.id, b.uid)
         <==> Stored(rows, feed.id, b.uid) || exists r :: r in taken && r.ref == b.uid
    {
      if Stored(rows, feed.id, b.uid) {
        var r :| r in rows && r.feedId == feed.id && r.ref == b.uid;
        assert Names(bookings, r.ref);
        assert r in after;
      }
    }
  }

  lemma KeepsAll(rows: seq<Row>, feedId: string, bookings: seq<Booking>, today: string)
    requires forall r :: r in rows ==> !Cancelled(r, feedId, bookings, today)
    ensures Kept(rows, feedId, bookings, today) == rows
  {
    FilterKeepsAll(rows, (r: Row) => !Cancelled(r, feedId, bookings, today));
  }

  /** The new rows of a sync carry UIDs of the feed, and every missing event has one. */
  lemma TakenRows(rows: seq<Row>, feed: Feed, bookings: seq<Booking>, ids: seq<string>)
    requires |bookings| <= |ids|
    ensures |Missing(rows, feed.id, bookings)| <= |ids|
    ensures var taken := NewRows(feed, ids, Missing(rows, feed.id, bookings));
      && (forall r :: r in taken ==> Names(bookings, r.ref) && r.feedId == feed.id)
      && (forall b :: b in Missing(rows, feed.id, bookings) ==> exists r :: r in taken && r.ref == b.uid)
  {
    hide Missing, NewRows, Stored;
    var missing := Missing(rows, feed.id, bookings);
    MissingFits(rows, feed.id, bookings);
    NewRowsMembers(feed, ids, missing);
    forall r | r in NewRows(feed, ids, missing) ensures Names(bookings, r.ref) && r.feedId == feed.id {
      var b :| b in missing && r == NewRow(feed, r.id, b);
      assert b in bookings;
    }
  }

  /** With nothing refused, syncing the same events again, then or later, changes nothing. */
  lemma SyncIsIdempotent(
      rows: seq<Row>, feed: Feed, bookings: seq<Booking>, today: string, later: string,
      ids: seq<string>, moreIds: seq<string>)
    requires |bookings| <= |ids| && |bookings| <= |moreIds| && !StrLess(later, today)
    ensures var after := AfterSync(rows, feed, bookings, today, ids);
      AfterSync(after, feed, bookings, later, moreIds) == after
  {
    hide Kept, Missing, NewRows, StrLess, Stored, Names;
    TakenRows(rows, feed, bookings, ids);
    SecondSyncOnlyRetries(rows, feed, bookings, today, later, NewRows(feed, ids, Missing(rows, feed.id, bookings)));
    var after := AfterSync(rows, feed, bookings, today, ids);
    SomeMember(Missing(after, feed.id, bookings));
    assert NewRows(feed, moreIds, []) == [];
    assert after + [] == after;
  }

  // ----- one block per UID, over every run -----

  /** No feed has two rows for one UID. */
  ghost predicate DistinctRefs(rows: seq<Row>) {
    forall i, j :: 0 <= i < j < |rows| && rows[i].feedId == rows[j].feedId && rows[i].ref == rows[j].ref
      ==> rows[i].ref == ""
  }

  ghost predicate DistinctUids(bookings: seq<Booking>) {
    forall i, j :: 0 <= i < j < |bookings| ==> bookings[i].uid != bookings[j].uid
  }

  ghost predicate RefsDiffer(rows: seq<Row>) {
    forall i, j :: 0 <= i < j < |rows| ==> rows[i].ref != rows[j].ref
  }

  lemma {:induction false} FilterDistinctRefs(rows: seq<Row>, p: Row -> bool)
    requires DistinctRefs(rows)
    ensures DistinctRefs(Filter(rows, p))
  {
    if rows != [] {
      FilterDistinctRefs(rows[1..], p);
      var rest := Filter(rows[1..], p);
      forall j | 0 <= j < |rest| && rest[j].feedId == rows[0].feedId && rest[j].ref == rows[0].ref
        ensures rows[0].ref == ""
      {
        assert rest[j] in rows[1..];
        var k :| 0 <= k < |rows[1..]| && rows[1..][k] == rest[j];
        assert rows[k + 1] == rest[j];
      }
    }
  }

  lemma {:induction false} FilterDistinctUids(bookings: seq<Booking>, p: Booking -> bool)
    requires DistinctUids(bookings)
    ensures DistinctUids(Filter(bookings, p))
  {
    if bookings != [] {
      FilterDistinctUids(bookings[1..], p);
      var rest := Filter(bookings[1..], p);
      forall j | 0 <= j < |rest| ensures rest[j].uid != bookings[0].uid {
        assert rest[j] in bookings[1..];
        var k :| 0 <= k < |bookings[1..]| && bookings[1..][k] == rest[j];
        assert bookings[k + 1] == rest[j];
      }
    }
  }

  /** Rows of one feed whose refs are distinct and not yet stored keep the table distinct. */
  lemma JoinDistinct(rows: seq<Row>, taken: seq<Row>, feedId: string)
    requires DistinctRefs(rows)
    requires forall r :: r in taken ==> r.feedId == feedId && !Stored(rows, feedId, r.ref)
    requires RefsDiffer(taken)
    ensures DistinctRefs(rows + taken)
  {
    hide Stored;
    var all := rows + taken;
    assert forall k :: 0 <= k < |taken| ==> all[|rows| + k] == taken[k];
    assert forall k :: |rows| <= k < |all| ==> all[k] == taken[k - |rows|];
    forall i, j | 0 <= i < j < |all| && all[i].feedId == all[j].feedId && all[i].ref == all[j].ref
      ensures all[i].ref == ""
    {
      if i < |rows| <= j {
        assert all[j] == taken[j - |rows|] && all[i] == rows[i];
        assert taken[j - |rows|] in taken;
        StoredHere(rows, i);
      }
    }
  }

  lemma StoredHere(rows: seq<Row>, i: nat)
    requires i < |rows|
    ensures Stored(rows, rows[i].feedId, rows[i].ref)
  {
    assert rows[i] in rows;
  }

  /** Refusing some rows keeps the others' refs different. */
  lemma {:induction false} AcceptedDiffer(rows: seq<Row>, added: seq<Row>, refuses: Guard)
    requires RefsDiffer(added)
    ensures RefsDiffer(Accepted(rows, added, refuses))
    decreases added
  {
    if added != [] {
      var rest := added[1..];
      assert forall k :: 0 <= k < |rest| ==> rest[k] == added[k + 1];
      AcceptedDiffer(rows, rest, refuses);
      AcceptedDiffer(rows + [added[0]], rest, refuses);
      AcceptedAmong(rows + [added[0]], rest, refuses);
      ConsDiffers(added[0], Accepted(rows + [added[0]], rest, refuses));
    }
  }

  lemma ConsDiffers(r: Row, rest: seq<Row>)
    requires RefsDiffer(rest) && forall x :: x in rest ==> x.ref != r.ref
    ensures RefsDiffer([r] + rest)
  {
    var all := [r] + rest;
    forall i, j | 0 <= i < j < |all| ensures all[i].ref != all[j].ref {
      assert all[j] == rest[j - 1] && rest[j - 1] in rest;
      if i > 0 { assert all[i] == rest[i - 1]; }
    }
  }

  /** A feed that lists each UID once leaves at most one row for each UID, whatever is refused. */
  lemma SyncKeepsRefsDistinct(
      rows: seq<Row>, feed: Feed, text: Option<string>, today: string, ids: seq<string>, refuses: Guard)
    requires |ids| == MAX_EVENTS_PER_FEED && DistinctRefs(rows)
    requires text.Some? ==> DistinctUids(Bookings(text.value))
    ensures var result := Synced(rows, feed, text, today, ids, refuses);
      result.Done? ==> DistinctRefs(result.rows)
  {
    hide IsCalendar, Bookings, DistinctRefs, Readable, NewRows, Accepted, Cancelled, Stored;
    if text.Some? {
      var bookings := Bookings(text.value);
      var missing := Missing(rows, feed.id, bookings);
      MissingFits(rows, feed.id, bookings);
      FilterDistinctUids(bookings, (b: Booking) => !Stored(rows, feed.id, b.uid));
      FilterDistinctRefs(rows, (r: Row) => !Cancelled(r, feed.id, bookings, today));
      var added := NewRows(feed, ids, missing);
      assert RefsDiffer(added);
      AcceptedDiffer(rows, added, refuses);
      var taken := Accepted(rows, added, refuses);
      var kept := Kept(rows, feed.id, bookings, today);
      forall r | r in taken ensures r.feedId == feed.id && !Stored(kept, feed.id, r.ref) {
        AcceptedAmong(rows, added, refuses);
        NewRowsMembers(feed, ids, missing);
        KeptStoresLess(rows, feed.id, bookings, today, r.ref);
      }
      JoinDistinct(kept, taken, feed.id);
    }
  }

  lemma KeptStoresLess(rows: seq<Row>, feedId: string, bookings: seq<Booking>, today: string, uid: string)
    ensures Stored(Kept(rows, feedId, bookings, today), feedId, uid) ==> Stored(rows, feedId, uid)
  {
    hide Cancelled;
  }

  /** With nothing refused the feed's UIDs stay unique exactly when its new events repeat none. */
  lemma DistinctAfterExactly(rows: seq<Row>, feed: Feed, bookings: seq<Booking>, today: string, ids: seq<string>)
    requires |bookings| <= |ids| && DistinctRefs(rows) && forall b :: b in bookings ==> b.uid != ""
    ensures DistinctRefs(AfterSync(rows, feed, bookings, today, ids))
       <==> DistinctUids(Missing(rows, feed.id, bookings))
  {
    hide Cancelled, Stored, NewRows, DistinctRefs;
    var missing := Missing(rows, feed.id, bookings);
    MissingFits(rows, feed.id, bookings);
    var made := NewRows(feed, ids, missing);
    var kept := Kept(rows, feed.id, bookings, today);
    FilterDistinctRefs(rows, (r: Row) => !Cancelled(r, feed.id, bookings, today));
    if DistinctUids(missing) {
      forall r | r in made ensures r.feedId == feed.id && !Stored(kept, feed.id, r.ref) {
        NewRowsMembers(feed, ids, missing);
        KeptStoresLess(rows, feed.id, bookings, today, r.ref);
      }
      JoinDistinct(kept, made, feed.id);
    }
    if DistinctRefs(kept + made) {
      forall i, j | 0 <= i < j < |missing| ensures missing[i].uid != missing[j].uid {
        assert missing[i] in missing;
        DistinctAt(kept, made, i, j);
      }
    }
  }

  lemma DistinctAt(a: seq<Row>, b: seq<Row>, i: nat, j: nat)
    requires DistinctRefs(a + b) && i < j < |b| && b[i].feedId == b[j].feedId
    ensures b[i].ref == b[j].ref ==> b[i].ref == ""
  {
    assert (a + b)[|a| + i] == b[i] && (a + b)[|a| + j] == b[j];
  }

  datatype Step = Step(feed: Feed, text: Option<string>, today: string, ids: seq<string>, refuses: Guard)

  function Run(rows: seq<Row>, steps: seq<Step>): seq<Row>
    requires forall s :: s in steps ==> |s.ids| == MAX_EVENTS_PER_FEED
    decreases steps
  {
    if steps == [] then rows
    else
      var s := steps[0];
      match Synced(rows, s.feed, s.text, s.today, s.ids, s.refuses)
      case Failed => Run(rows, steps[1..])
      case Done(after) => Run(after, steps[1..])
  }

  /** Over every run of syncs of any feeds, failed ones and refused rows included, no UID is imported twice. */
  lemma {:induction false} NeverImportedTwice(rows: seq<Row>, steps: seq<Step>)
    requires DistinctRefs(rows)
    requires forall s :: s in steps ==>
      |s.ids| == MAX_EVENTS_PER_FEED && (s.text.Some? ==> DistinctUids(Bookings(s.text.value)))
    ensures DistinctRefs(Run(rows, steps))
    decreases steps
  {
    hide DistinctRefs, DistinctUids, Bookings, Synced;
    if steps != [] {
      var s := steps[0];
      SyncKeepsRefsDistinct(rows, s.feed, s.text, s.today, s.ids, s.refuses);
      match Synced(rows, s.feed, s.text, s.today, s.ids, s.refuses) {
        case Failed => NeverImportedTwice(rows, steps[1..]);
        case Done(after) => NeverImportedTwice(after, steps[1..]);
      }
    }
  }

  // ----- from a printed calendar to blocks -----

  /** An event states a UID and two dates, the first before the second. */
  predicate Importable(e: I.VEvent) {
    e.uid.GetOr("") != "" && e.start.Some? && e.end.Some? && C.DateLess(e.start.value.date, e.end.value.date)
  }

  /** The events of a calendar that can be imported. */
  function Printed(items: seq<I.Item>): seq<Booking> {
    if items == [] then []
    else
      (if items[0].Inside? && Importable(items[0].event)
       then
         var e := items[0].event;
         [Booking(e.uid.value, C.Iso(e.start.value.date), C.Iso(e.end.value.date))]
       else [])
      + Printed(items[1..])
  }

  predicate RealDate(d: Option<I.DateValue>) { d.Some? ==> C.FourDigit(d.value.date) }

  predicate RealDates(item: I.Item) {
    item.Inside? ==> RealDate(item.event.start) && RealDate(item.event.end)
  }

  lemma UsableMeaning(e: I.VEvent)
    requires RealDate(e.start) && RealDate(e.end)
    ensures UsableBookings([I.Meaning(e)])
         == if Importable(e)
            then [Booking(e.uid.value, C.Iso(e.start.value.date), C.Iso(e.end.value.date))] else []
  {
    hide StrLess, C.DateLess, C.Iso, C.FourDigit;
    if e.start.Some? && e.end.Some? { C.IsoOrdersDates(e.start.value.date, e.end.value.date); }
    assert [I.Meaning(e)][1..] == [];
    assert UsableBookings([]) == [];
  }

  lemma {:induction false} UsableConcat(a: seq<I.Event>, b: seq<I.Event>)
    ensures UsableBookings(a + b) == UsableBookings(a) + UsableBookings(b)
  {
    hide BookingOf;
    if a == [] {
      assert a + b == b;
    } else {
      assert (a + b)[1..] == a[1..] + b;
      UsableConcat(a[1..], b);
    }
  }

  lemma {:induction false} PrintedAreUsable(items: seq<I.Item>)
    requires forall item :: item in items ==> RealDates(item)
    ensures UsableBookings(I.Meanings(items)) == Printed(items)
  {
    hide Usable, UsableBookings, I.Meaning, Importable, C.Iso, C.FourDigit;
    if items == [] {
      NothingUsable();
    } else {
      PrintedAreUsable(items[1..]);
      if items[0].Inside? {
        assert RealDates(items[0]);
        UsableMeaning(items[0].event);
        UsableConcat([I.Meaning(items[0].event)], I.Meanings(items[1..]));
      } else {
        assert I.Meanings(items) == I.Meanings(items[1..]);
      }
    }
  }

  lemma NothingUsable()
    ensures UsableBookings([]) == []
  {
  }

  lemma {:induction false} PrintedReadable(items: seq<I.Item>)
    requires forall item :: item in items ==> RealDates(item)
    ensures forall b :: b in Printed(items) ==> Readable(b) && b.uid != ""
  {
    hide C.ParseIso, C.Iso, C.FourDigit, C.DateLess;
    if items != [] {
      PrintedReadable(items[1..]);
      assert RealDates(items[0]);
      if items[0].Inside? && Importable(items[0].event) {
        C.IsoRoundTrip(items[0].event.start.value.date);
        C.IsoRoundTrip(items[0].event.end.value.date);
      }
    }
  }

  /**
   The first sync of a feed that prints a calendar, however arranged and folded, adds exactly its
   importable events, in order, and touches nothing else; it does so exactly when the text still shows
   the calendar's opening line, which a fold can break.
   */
  lemma FirstSyncImportsCalendar(
      rows: seq<Row>, feed: Feed, items: seq<I.Item>, ps: seq<I.Physical>, today: string,
      ids: seq<string>, refuses: Guard)
    requires |ids| == 500 && |Printed(items)| <= 500
    requires I.GoodCalendar(items) && forall item :: item in items ==> RealDates(item)
    requires I.LogicalLines(ps) == I.CalendarLines(items)
    requires forall r :: r in rows ==> r.feedId != feed.id
    requires forall table, row :: !refuses(table, row)
    ensures Synced(rows, feed, Some(I.Render(ps)), today, ids, refuses)
         == if IsCalendar(I.Render(ps)) then Done(rows + NewRows(feed, ids, Printed(items))) else Failed
  {
    hide I.GoodCalendar, I.Parsed, I.Render, I.LogicalLines, I.CalendarLines;
    hide IsCalendar, NewRows, Accepted, Readable, Printed;
    I.ReadingUndoesPrinting(items, ps);
    PrintedAreUsable(items);
    PrintedReadable(items);
    var bookings := Printed(items);
    assert Bookings(I.Render(ps)) == bookings;
    FilterKeepsAll(bookings, (b: Booking) => !Stored(rows, feed.id, b.uid));
    KeepsAll(rows, feed.id, bookings, today);
    AllAccepted(rows, NewRows(feed, ids, bookings), refuses);
  }

  // ----- a sync is a run of the inventory -----

  predicate ReadableRow(r: Row) { C.ParseIso(r.fromDate).Some? && C.ParseIso(r.toDate).Some? }

  function BlockOf(r: Row): A.Block
    requires ReadableRow(r)
  {
    A.Block(r.id, r.hotelId, r.roomId, C.DayOf(r.fromDate), C.DayOf(r.toDate), r.unitId)
  }

  function Blocks(rows: seq<Row>): (bs: seq<A.Block>)
    requires forall r :: r in rows ==> ReadableRow(r)
    ensures |bs| == |rows| && forall i :: 0 <= i < |rows| ==> bs[i] == BlockOf(rows[i])
  {
    seq(|rows|, i requires 0 <= i < |rows| => BlockOf(rows[i]))
  }

  function Imports(rows: seq<Row>): seq<R.Step>
    requires forall r :: r in rows ==> ReadableRow(r)
  {
    if rows == [] then [] else [R.Import(BlockOf(rows[0]))] + Imports(rows[1..])
  }

  /** Removing, from the last to the first, the rows the test does not keep. */
  function Removals(rows: seq<Row>, keep: Row -> bool): seq<R.Step> {
    if rows == [] then []
    else
      var k := |rows| - 1;
      (if keep(rows[k]) then [] else [R.Remove(k)]) + Removals(rows[..k], keep)
  }

  lemma {:induction false} RunConcat(signals: R.Signals, st: R.State, a: seq<R.Step>, b: seq<R.Step>)
    ensures R.Run(signals, st, a + b) == R.Run(signals, R.Run(signals, st, a), b)
    decreases a
  {
    hide R.Next;
    if a == [] {
      assert a + b == b;
    } else {
      assert (a + b)[1..] == a[1..] + b;
      RunConcat(signals, R.Next(signals, st, a[0]), a[1..], b);
    }
  }

  lemma {:induction false} RunImports(signals: R.Signals, st: R.State, rows: seq<Row>)
    requires forall r :: r in rows ==> ReadableRow(r)
    ensures R.Run(signals, st, Imports(rows)) == st.(blocks := st.blocks + Blocks(rows))
    decreases rows
  {
    hide ReadableRow, BlockOf;
    if rows == [] {
      assert st.blocks + Blocks(rows) == st.blocks;
    } else {
      var next := st.(blocks := st.blocks + [BlockOf(rows[0])]);
      assert Imports(rows)[1..] == Imports(rows[1..]);
      assert R.Next(signals, st, Imports(rows)[0]) == next;
      RunImports(signals, next, rows[1..]);
      assert st.blocks + [BlockOf(rows[0])] + Blocks(rows[1..]) == st.blocks + Blocks(rows);
    }
  }

  lemma BlocksConcat(a: seq<Row>, b: seq<Row>)
    requires forall r :: r in a || r in b ==> ReadableRow(r)
    ensures Blocks(a + b) == Blocks(a) + Blocks(b)
  {
  }

  /** Taking the last of the feed's rows out of the table, whatever lies behind it. */
  lemma RemoveLast(signals: R.Signals, bids: seq<A.Bid>, init: seq<Row>, last: Row, tail: seq<A.Block>)
    requires (forall r :: r in init ==> ReadableRow(r)) && ReadableRow(last)
    ensures R.Next(signals, R.State(bids, Blocks(init) + [BlockOf(last)] + tail), R.Remove(|init|))
         == R.State(bids, Blocks(init) + tail)
  {
    hide ReadableRow, BlockOf;
    var all := Blocks(init) + [BlockOf(last)] + tail;
    assert all[..|init|] == Blocks(init) && all[|init| + 1..] == tail;
  }

  lemma RunFirst(signals: R.Signals, st: R.State, step: R.Step, steps: seq<R.Step>)
    ensures R.Run(signals, st, [step] + steps) == R.Run(signals, R.Next(signals, st, step), steps)
  {
    hide R.Next;
    assert ([step] + steps)[1..] == steps;
  }

  lemma {:induction false} RunRemovals(
      signals: R.Signals, bids: seq<A.Bid>, rows: seq<Row>, keep: Row -> bool, tail: seq<A.Block>)
    requires forall r :: r in rows ==> ReadableRow(r)
    ensures R.Run(signals, R.State(bids, Blocks(rows) + tail), Removals(rows, keep))
         == R.State(bids, Blocks(Filter(rows, keep)) + tail)
    decreases rows
  {
    hide ReadableRow, BlockOf, R.Next, R.Run, Filter, Blocks, Removals;
    if rows == [] {
      RunNothing(signals, R.State(bids, Blocks(rows) + tail), keep);
    } else {
      var (init, last) := (rows[..|rows| - 1], rows[|rows| - 1]);
      assert rows == init + [last];
      BlocksConcat(init, [last]);
      OneBlock(last);
      FilterLast(init, last, keep);
      RemovalsLast(init, last, keep);
      if keep(last) {
        RunRemovals(signals, bids, init, keep, [BlockOf(last)] + tail);
        BlocksConcat(Filter(init, keep), [last]);
        Regroup(Blocks(init), [BlockOf(last)], tail);
        Regroup(Blocks(Filter(init, keep)), [BlockOf(last)], tail);
      } else {
        RemoveLast(signals, bids, init, last, tail);
        RunFirst(signals, R.State(bids, Blocks(rows) + tail), R.Remove(|init|), Removals(init, keep));
        RunRemovals(signals, bids, init, keep, tail);
      }
    }
  }

  lemma Regroup<T>(a: seq<T>, b: seq<T>, c: seq<T>)
    ensures a + b + c == a + (b + c)
  {
  }

  lemma FilterLast(init: seq<Row>, last: Row, keep: Row -> bool)
    ensures Filter(init + [last], keep) == if keep(last) then Filter(init, keep) + [last] else Filter(init, keep)
  {
    FilterConcat(init, [last], keep);
    FilterOne(last, keep);
    hide Filter;
    assert Filter(init, keep) + [] == Filter(init, keep);
  }

  lemma RemovalsLast(init: seq<Row>, last: Row, keep: Row -> bool)
    ensures Removals(init + [last], keep)
         == if keep(last) then Removals(init, keep) else [R.Remove(|init|)] + Removals(init, keep)
  {
    assert (init + [last])[..|init|] == init;
    assert [] + Removals(init, keep) == Removals(init, keep);
  }

  lemma RunNothing(signals: R.Signals, st: R.State, keep: Row -> bool)
    ensures R.Run(signals, st, Removals([], keep)) == st && Filter([], keep) == []
  {
  }

  lemma OneBlock(r: Row)
    requires ReadableRow(r)
    ensures Blocks([r]) == [BlockOf(r)]
  {
  }

  /** The steps a sync takes: its imports, then its removals. */
  function SyncSteps(
      rows: seq<Row>, taken: seq<Row>, feedId: string, bookings: seq<Booking>, today: string): seq<R.Step>
    requires forall r :: r in taken ==> ReadableRow(r)
  {
    Imports(taken) + Removals(rows, (r: Row) => !Cancelled(r, feedId, bookings, today))
  }

  /** On the inventory a sync is a run of imports and removals, so all that holds of runs holds of syncs. */
  lemma SyncIsRun(
      signals: R.Signals, bids: seq<A.Bid>, rows: seq<Row>, taken: seq<Row>,
      feedId: string, bookings: seq<Booking>, today: string)
    requires forall r :: r in rows || r in taken ==> ReadableRow(r)
    ensures R.Run(signals, R.State(bids, Blocks(rows)), SyncSteps(rows, taken, feedId, bookings, today))
         == R.State(bids, Blocks(Kept(rows, feedId, bookings, today) + taken))
  {
    hide ReadableRow, Cancelled, BlockOf, R.Next, Removals, Imports;
    var keep := (r: Row) => !Cancelled(r, feedId, bookings, today);
    RunConcat(signals, R.State(bids, Blocks(rows)), Imports(taken), Removals(rows, keep));
    RunImports(signals, R.State(bids, Blocks(rows)), taken);
    RunRemovals(signals, bids, rows, keep, Blocks(taken));
    BlocksConcat(Kept(rows, feedId, bookings, today), taken);
  }

  // ----- what an import does to the inventory -----

  /**
   Row by row: what a sync deletes are the feed's own "ota_ical" rows with a UID the feed no longer
   names and not ended before today; what it adds are rows of the feed's hotel, room and unit.
   */
  lemma RowsAfterExactly(rows: seq<Row>, feed: Feed, bookings: seq<Booking>, today: string, ids: seq<string>, r: Row)
    requires |bookings| <= |ids|
    ensures |Missing(rows, feed.id, bookings)| <= |ids|
    ensures var missing := Missing(rows, feed.id, bookings);
      r in AfterSync(rows, feed, bookings, today, ids)
      <==> (r in rows
            && !(r.feedId == feed.id && r.source == "ota_ical" && r.ref != "" && !StrLess(r.toDate, today)
                 && forall b :: b in bookings ==> b.uid != r.ref))
           || exists i :: 0 <= i < |missing|
                && r == Row(ids[i], feed.hotelId, feed.roomId, missing[i].fromDate, missing[i].toDate,
                            feed.id, "ota_ical", missing[i].uid, feed.unitId)
  {
    hide Missing, StrLess;
    var missing := Missing(rows, feed.id, bookings);
    MissingFits(rows, feed.id, bookings);
    var made := NewRows(feed, ids, missing);
    assert forall i :: 0 <= i < |missing| ==> made[i] in made;
  }

  /** How many of the events cover the night. */
  function Covering(bookings: seq<Booking>, night: A.Night): nat
    requires forall b :: b in bookings ==> Readable(b)
  {
    if bookings == [] then 0
    else
      var last := bookings[|bookings| - 1];
      assert Readable(last);
      Covering(bookings[..|bookings| - 1], night)
      + if C.DayOf(last.fromDate) <= night && night < C.DayOf(last.toDate) then 1 else 0
  }

  lemma BlockLoadConcat(a: seq<A.Block>, b: seq<A.Block>, hotelId: string, roomId: string, night: A.Night)
    ensures A.BlockLoad(a + b, hotelId, roomId, night)
         == A.BlockLoad(a, hotelId, roomId, night) + A.BlockLoad(b, hotelId, roomId, night)
  {
    if b == [] {
      assert a + b == a;
    } else {
      assert (a + b)[..|a + b| - 1] == a + b[..|b| - 1];
      BlockLoadConcat(a, b[..|b| - 1], hotelId, roomId, night);
    }
  }

  lemma BlockSalesConcat(a: seq<A.Block>, b: seq<A.Block>, hotelId: string, unitId: string, night: A.Night)
    ensures A.BlockSales(a + b, hotelId, unitId, night)
         == A.BlockSales(a, hotelId, unitId, night) + A.BlockSales(b, hotelId, unitId, night)
  {
    if b == [] {
      assert a + b == a;
    } else {
      assert (a + b)[..|a + b| - 1] == a + b[..|b| - 1];
      BlockSalesConcat(a, b[..|b| - 1], hotelId, unitId, night);
    }
  }

  lemma {:induction false} NewRowsHold(
      feed: Feed, ids: seq<string>, bookings: seq<Booking>,
      hotelId: string, roomId: string, unitId: string, night: A.Night)
    requires |bookings| <= |ids| && forall b :: b in bookings ==> Readable(b)
    ensures forall r :: r in NewRows(feed, ids, bookings) ==> ReadableRow(r)
    ensures A.BlockLoad(Blocks(NewRows(feed, ids, bookings)), hotelId, roomId, night)
         == if hotelId == feed.hotelId && roomId == feed.roomId then Covering(bookings, night) else 0
    ensures A.BlockSales(Blocks(NewRows(feed, ids, bookings)), hotelId, unitId, night)
         == if hotelId == feed.hotelId && feed.unitId == Some(unitId) then Covering(bookings, night) else 0
    decreases |bookings|
  {
    hide ReadableRow, A.BlockLoad, A.BlockSales, C.DayOf, C.ParseIso, Readable;
    NothingHolds(hotelId, roomId, unitId, night);
    assert bookings == [] ==> Blocks(NewRows(feed, ids, bookings)) == [];
    if bookings != [] {
      var (init, last) := (bookings[..|bookings| - 1], bookings[|bookings| - 1]);
      var (rows, row) := (NewRows(feed, ids, init), NewRow(feed, ids[|init|], last));
      assert forall b :: b in init ==> b in bookings;
      assert last in bookings;
      NewRowsHold(feed, ids, init, hotelId, roomId, unitId, night);
      assert NewRows(feed, ids, bookings) == rows + [row];
      OneRowHolds(feed, ids[|init|], last, hotelId, roomId, unitId, night);
      HoldsAppend(rows, row, hotelId, roomId, unitId, night);
    }
  }

  lemma NothingHolds(hotelId: string, roomId: string, unitId: string, night: A.Night)
    ensures A.BlockLoad([], hotelId, roomId, night) == 0 && A.BlockSales([], hotelId, unitId, night) == 0
  {
  }

  lemma HoldsAppend(rows: seq<Row>, row: Row, hotelId: string, roomId: string, unitId: string, night: A.Night)
    requires ReadableRow(row) && forall r :: r in rows ==> ReadableRow(r)
    ensures A.BlockLoad(Blocks(rows + [row]), hotelId, roomId, night)
         == A.BlockLoad(Blocks(rows), hotelId, roomId, night) + A.BlockLoad(Blocks([row]), hotelId, roomId, night)
    ensures A.BlockSales(Blocks(rows + [row]), hotelId, unitId, night)
         == A.BlockSales(Blocks(rows), hotelId, unitId, night) + A.BlockSales(Blocks([row]), hotelId, unitId, night)
  {
    BlocksConcat(rows, [row]);
    BlockLoadConcat(Blocks(rows), Blocks([row]), hotelId, roomId, night);
    BlockSalesConcat(Blocks(rows), Blocks([row]), hotelId, unitId, night);
    hide Blocks, ReadableRow, A.BlockLoad, A.BlockSales;
  }

  lemma OneRowHolds(
      feed: Feed, id: string, b: Booking, hotelId: string, roomId: string, unitId: string, night: A.Night)
    requires Readable(b)
    ensures ReadableRow(NewRow(feed, id, b))
    ensures var (blocks, held) :=
        (Blocks([NewRow(feed, id, b)]), C.DayOf(b.fromDate) <= night && night < C.DayOf(b.toDate));
      && A.BlockLoad(blocks, hotelId, roomId, night)
         == (if hotelId == feed.hotelId && roomId == feed.roomId && held then 1 else 0)
      && A.BlockSales(blocks, hotelId, unitId, night)
         == (if hotelId == feed.hotelId && feed.unitId == Some(unitId) && held then 1 else 0)
  {
    hide C.DayOf, C.ParseIso;
    var blocks := Blocks([NewRow(feed, id, b)]);
    assert blocks[..0] == [] && blocks[0] == BlockOf(NewRow(feed, id, b));
  }

  lemma AfterReadable(rows: seq<Row>, feed: Feed, bookings: seq<Booking>, today: string, ids: seq<string>)
    requires |bookings| <= |ids| && forall r :: r in rows ==> ReadableRow(r)
    requires forall b :: b in Missing(rows, feed.id, bookings) ==> Readable(b)
    ensures forall r :: r in AfterSync(rows, feed, bookings, today, ids) ==> ReadableRow(r)
  {
    hide Missing, C.ParseIso;
    MissingFits(rows, feed.id, bookings);
    NewRowsMembers(feed, ids, Missing(rows, feed.id, bookings));
  }

  /**
   What a sync does to the inventory: on every night the feed's room holds one unit more for each
   missing event covering the night, every other room what its kept rows hold; and a feed of a single
   unit sells that unit once more for each such event, and no other.
   */
  lemma ImportHoldsTheNights(
      rows: seq<Row>, feed: Feed, bookings: seq<Booking>, today: string, ids: seq<string>,
      hotelId: string, roomId: string, unitId: string, night: A.Night)
    requires |bookings| <= |ids| && forall r :: r in rows ==> ReadableRow(r)
    requires forall b :: b in Missing(rows, feed.id, bookings) ==> Readable(b)
    ensures forall r :: r in AfterSync(rows, feed, bookings, today, ids) ==> ReadableRow(r)
    ensures var (kept, after) := (Kept(rows, feed.id, bookings, today), AfterSync(rows, feed, bookings, today, ids));
      var more := Covering(Missing(rows, feed.id, bookings), night);
      && A.BlockLoad(Blocks(after), hotelId, roomId, night)
         == A.BlockLoad(Blocks(kept), hotelId, roomId, night)
            + (if hotelId == feed.hotelId && roomId == feed.roomId then more else 0)
      && A.BlockSales(Blocks(after), hotelId, unitId, night)
         == A.BlockSales(Blocks(kept), hotelId, unitId, night)
            + (if hotelId == feed.hotelId && feed.unitId == Some(unitId) then more else 0)
  {
    AfterReadable(rows, feed, bookings, today, ids);
    hide Missing, Kept, ReadableRow, Readable, NewRows, Blocks, A.BlockLoad, A.BlockSales, Covering;
    var missing := Missing(rows, feed.id, bookings);
    MissingFits(rows, feed.id, bookings);
    var (kept, made) := (Kept(rows, feed.id, bookings, today), NewRows(feed, ids, missing));
    NewRowsHold(feed, ids, missing, hotelId, roomId, unitId, night);
    BlocksConcat(kept, made);
    BlockLoadConcat(Blocks(kept), Blocks(made), hotelId, roomId, night);
    BlockSalesConcat(Blocks(kept), Blocks(made), hotelId, unitId, night);
  }
}
