/**
 The payment countdown of an accepted bid: windows kept in the browser's storage, the mounting
 effect that seeds them, the one-second tick that warns once and cancels once, and hydration
 from the server. Each action reads the clock once.
 */
module AutoCancel {
  import opened Base
  import B = BidExpiry

  const ACCEPTANCE_WINDOW_MIN := 30
  const WARNING_THRESHOLD_MS := 5 * B.MIN

  /** A stored time text: toISOString's own spelling, or any other spelling with its reading. */
  datatype TimeText = IsoZ(ms: int) | Foreign(text: string, reading: B.Time)
  {
    function Read(): B.Time { match this case IsoZ(ms) => B.Ms(ms) case Foreign(_, t) => t }
  }

  datatype Window = Window(
    bidId: string, acceptedAt: TimeText, expiresAt: TimeText, warnedAt: Option<int>, cancelledAt: Option<int>)

  type Store = map<string, Window>

  datatype Kind = Warning | Cancellation

  datatype Notice = Notice(kind: Kind, bidId: string, at: int)

  // ----- timer arithmetic -----

  function TimeLeftMs(w: Window, now: int): B.Time {
    match w.expiresAt.Read() case NaN => B.NaN case Ms(e) => B.Ms(Max(0, e - now))
  }

  predicate IsExpired(w: Window, now: int) {
    var left := TimeLeftMs(w, now);
    left.Ms? && left.ms <= 0
  }

  predicate ShouldWarn(w: Window, now: int) {
    if w.warnedAt.Some? then false
    else if IsExpired(w, now) then false
    else
      var left := TimeLeftMs(w, now);
      left.Ms? && left.ms <= WARNING_THRESHOLD_MS
  }

  // ----- what each action does to the store -----

  function WithMark(w: Window, kind: Kind, now: int): Window {
    match kind
    case Warning => w.(warnedAt := Some(now))
    case Cancellation => w.(cancelledAt := Some(now))
  }

  function Marked(store: Store, bidId: string, kind: Kind, now: int): Store {
    if bidId in store then store[bidId := WithMark(store[bidId], kind, now)] else store
  }

  datatype Outcome = Outcome(store: Store, notices: seq<Notice>)

  /** One tick of the interval. */
  function AfterTick(store: Store, bidId: string, now: int): Outcome {
    if bidId !in store then Outcome(store, [])
    else if ShouldWarn(store[bidId], now) then
      Outcome(Marked(store, bidId, Warning, now), [Notice(Warning, bidId, now)])
    else if IsExpired(store[bidId], now) && store[bidId].cancelledAt.None? then
      Outcome(Marked(store, bidId, Cancellation, now), [Notice(Cancellation, bidId, now)])
    else Outcome(store, [])
  }

  /** A server row of /api/acceptance-windows. */
  datatype Row = Row(bidId: string, acceptedAt: TimeText, expiresAt: TimeText, warnedAt: Option<int>, status: string)

  function Mapped(r: Row, now: int): Window {
    Window(r.bidId, r.acceptedAt, r.expiresAt, r.warnedAt,
           if r.status == "cancelled" || r.status == "expired" then Some(now) else None)
  }

  function AfterRow(store: Store, r: Row, now: int): Store {
    if r.bidId !in store || r.acceptedAt != store[r.bidId].acceptedAt then store[r.bidId := Mapped(r, now)] else store
  }

  function AfterHydrate(store: Store, rows: seq<Row>, now: int): Store {
    if rows == [] then store
    else AfterRow(AfterHydrate(store, rows[..|rows| - 1], now), rows[|rows| - 1], now)
  }

  /** The window the mounting effect computes from the bid's own times; None when neither can be read. */
  function ComputedWindow(
      bidId: string, expiresAt: B.Stamp, acceptedAt: B.Stamp, effectiveWindow: int): Option<Window>
  {
    if expiresAt.At? then
      var accepted := if acceptedAt.At? then acceptedAt.ms else expiresAt.ms - effectiveWindow * B.MIN;
      Some(Window(bidId, IsoZ(accepted), IsoZ(expiresAt.ms), None, None))
    else if acceptedAt.At? then
      Some(Window(bidId, IsoZ(acceptedAt.ms), IsoZ(acceptedAt.ms + effectiveWindow * B.MIN), None, None))
    else None
  }

  function StartedWindow(bidId: string, now: int, windowMin: int): Window {
    Window(bidId, IsoZ(now), IsoZ(now + Max(1, windowMin) * B.MIN), None, None)
  }

  /** The window shown after mounting. */
  function SeededWindow(
      store: Store, bidId: string, expiresAt: B.Stamp, acceptedAt: B.Stamp, effectiveWindow: int, now: int): Window
  {
    match ComputedWindow(bidId, expiresAt, acceptedAt, effectiveWindow)
    case Some(w) => w
    case None => if bidId in store then store[bidId] else StartedWindow(bidId, now, effectiveWindow)
  }

  // ----- the browser side, updated in place -----

  class Browser {
    var windows: map<string, Window>   // localStorage entries accept_window_*
    var notices: seq<Notice>           // notify() calls so far

    constructor ()
      ensures windows == map[] && notices == []
    {
      windows := map[];
      notices := [];
    }

    method SaveWindow(w: Window)
      modifies this`windows
      ensures windows == old(windows)[w.bidId := w]
    {
      windows := windows[w.bidId := w];
    }

    method ReadWindow(bidId: string) returns (w: Option<Window>)
      ensures w == if bidId in windows then Some(windows[bidId]) else None
    {
      w := if bidId in windows then Some(windows[bidId]) else None;
    }

    method ClearWindow(bidId: string)
      modifies this`windows
      ensures windows == old(windows) - {bidId}
    {
      windows := windows - {bidId};
    }

    /** `bidId in windows ==> windows[bidId].bidId == bidId`: entries sit under their own key. */
    ghost predicate Keyed()
      reads this
    {
      forall id :: id in windows ==> windows[id].bidId == id
    }

    method Mark(bidId: string, kind: Kind, now: int)
      requires Keyed()
      modifies this`windows
      ensures Keyed() && windows == Marked(old(windows), bidId, kind, now)
    {
      var w := ReadWindow(bidId);
      if w.Some? {
        SaveWindow(WithMark(w.value, kind, now));
      }
    }

    method MarkPaid(bidId: string)
      modifies this`windows
      ensures windows == old(windows) - {bidId}
    {
      var w := ReadWindow(bidId);
      if w.Some? {
        ClearWindow(bidId);
      } else {
        assert windows - {bidId} == windows;
      }
    }

    method StartAcceptanceWindow(bidId: string, acceptedAt: int, windowMin: int) returns (w: Window)
      modifies this`windows
      ensures w == StartedWindow(bidId, acceptedAt, windowMin) && windows == old(windows)[bidId := w]
    {
      w := Window(bidId, IsoZ(acceptedAt), IsoZ(acceptedAt + Max(1, windowMin) * B.MIN), None, None);
      SaveWindow(w);
    }

    /** The mounting effect; returns the window the banner shows. */
    method Seed(
        bidId: string, expiresAt: B.Stamp, acceptedAt: B.Stamp, effectiveWindow: int, now: int)
      returns (w: Window)
      requires Keyed()
      modifies this`windows
      ensures Keyed() && w == SeededWindow(old(windows), bidId, expiresAt, acceptedAt, effectiveWindow, now)
      ensures windows == old(windows)[bidId := w]
    {
      if !expiresAt.Absent? {
        var exp := expiresAt.Read();
        if exp.Ms? {
          var candidate := acceptedAt.Read();
          var acc := if candidate.Ms? then candidate.ms else exp.ms - effectiveWindow * B.MIN;
          w := Window(bidId, IsoZ(acc), IsoZ(exp.ms), None, None);
          SaveWindow(w);
          return;
        }
      }
      if !acceptedAt.Absent? {
        var acc := acceptedAt.Read();
        if acc.Ms? {
          w := Window(bidId, IsoZ(acc.ms), IsoZ(acc.ms + effectiveWindow * B.MIN), None, None);
          SaveWindow(w);
          return;
        }
      }
      var existing := ReadWindow(bidId);
      if existing.Some? {
        w := existing.value;
        return;
      }
      w := StartAcceptanceWindow(bidId, now, effectiveWindow);
    }

    method Tick(bidId: string, now: int)
      requires Keyed()
      modifies this
      ensures Keyed()
      ensures Outcome(windows, notices)
           == var after := AfterTick(old(windows), bidId, now); Outcome(after.store, old(notices) + after.notices)
    {
      var cur := ReadWindow(bidId);
      if cur.None? {
        assert notices + [] == notices;
        return;
      }
      if ShouldWarn(cur.value, now) {
        Mark(bidId, Warning, now);
        notices := notices + [Notice(Warning, bidId, now)];
      }
      if IsExpired(cur.value, now) && cur.value.cancelledAt.None? {
        Mark(bidId, Cancellation, now);
        notices := notices + [Notice(Cancellation, bidId, now)];
      }
    }

    method Hydrate(rows: seq<Row>, now: int)
      requires Keyed()
      modifies this`windows
      ensures Keyed() && windows == AfterHydrate(old(windows), rows, now)
    {
      for i := 0 to |rows|
        invariant Keyed() && windows == AfterHydrate(old(windows), rows[..i], now)
      {
        assert rows[..i + 1][..i] == rows[..i];
        var mapped := Mapped(rows[i], now);
        var local := ReadWindow(mapped.bidId);
        if local.None? || mapped.acceptedAt != local.value.acceptedAt {
          SaveWindow(mapped);
        }
      }
      assert rows[..|rows|] == rows;
    }
  }

  // ----- ticks from one fresh window -----

  function Ticks(store: Store, bidId: string, times: seq<int>): Outcome
    decreases times
  {
    if times == [] then Outcome(store, [])
    else
      var first := AfterTick(store, bidId, times[0]);
      var rest := Ticks(first.store, bidId, times[1..]);
      Outcome(rest.store, first.notices + rest.notices)
  }

  /** The first clock reading in [lo, hi), and the first at or after lo. */
  function FirstWithin(times: seq<int>, lo: int, hi: int): Option<int> {
    if times == [] then None else if lo <= times[0] < hi then Some(times[0]) else FirstWithin(times[1..], lo, hi)
  }

  function FirstFrom(times: seq<int>, lo: int): Option<int> {
    if times == [] then None else if lo <= times[0] then Some(times[0]) else FirstFrom(times[1..], lo)
  }

  ghost predicate NonDecreasing(times: seq<int>) {
    forall i, j :: 0 <= i < j < |times| ==> times[i] <= times[j]
  }

  function NoticeOf(kind: Kind, bidId: string, at: Option<int>): seq<Notice> {
    if at.Some? then [Notice(kind, bidId, at.value)] else []
  }

  /**
   From a window expiring at E, the ticks of a non-decreasing clock emit exactly: one warning at the
   first reading in [E - 5 min, E) unless already warned, then one cancellation at the first reading
   at or after E unless already cancelled. Nothing else, and nothing at other times.
   */
  lemma {:induction false} TicksExact(store: Store, bidId: string, times: seq<int>, e: int)
    requires bidId in store && store[bidId].expiresAt.Read() == B.Ms(e) && NonDecreasing(times)
    ensures Ticks(store, bidId, times).notices
         == (if store[bidId].warnedAt.Some? then []
              else NoticeOf(Warning, bidId, FirstWithin(times, e - WARNING_THRESHOLD_MS, e)))
          + (if store[bidId].cancelledAt.Some? then [] else NoticeOf(Cancellation, bidId, FirstFrom(times, e)))
    decreases times
  {
    if times != [] {
      var t := times[0];
      var next := AfterTick(store, bidId, t).store;
      assert next[bidId].expiresAt == store[bidId].expiresAt;
      TicksExact(next, bidId, times[1..], e);
      if t >= e {
        NothingEarlier(times, e - WARNING_THRESHOLD_MS, e);
        NothingEarlier(times[1..], e - WARNING_THRESHOLD_MS, e);
      }
    }
  }

  lemma {:induction false} NothingEarlier(times: seq<int>, lo: int, hi: int)
    requires forall i :: 0 <= i < |times| ==> hi <= times[i]
    ensures FirstWithin(times, lo, hi) == None
  {
    if times != [] { NothingEarlier(times[1..], lo, hi); }
  }

  // ----- arbitrary runs -----

  datatype Step =
    | TickStep(bidId: string, now: int)
    | HydrateStep(rows: seq<Row>, now: int)
    | SeedStep(bidId: string, expiresAt: B.Stamp, acceptedAt: B.Stamp, effectiveWindow: int, now: int)
    | DropStep(bidId: string)              // paid or dismissed

  function AfterStep(store: Store, step: Step): Outcome {
    match step
    case TickStep(id, now) => AfterTick(store, id, now)
    case HydrateStep(rows, now) => Outcome(AfterHydrate(store, rows, now), [])
    case SeedStep(id, expires, accepted, window, now) =>
      Outcome(store[id := SeededWindow(store, id, expires, accepted, window, now)], [])
    case DropStep(id) => Outcome(store - {id}, [])
  }

  function AfterRun(store: Store, steps: seq<Step>): Outcome
    decreases steps
  {
    if steps == [] then Outcome(store, [])
    else
      var first := AfterStep(store, steps[0]);
      var rest := AfterRun(first.store, steps[1..]);
      Outcome(rest.store, first.notices + rest.notices)
  }

  function Count(notices: seq<Notice>, kind: Kind, bidId: string): nat {
    if notices == [] then 0
    else (if notices[0].kind == kind && notices[0].bidId == bidId then 1 else 0) + Count(notices[1..], kind, bidId)
  }

  lemma CountConcat(a: seq<Notice>, b: seq<Notice>, kind: Kind, bidId: string)
    ensures Count(a + b, kind, bidId) == Count(a, kind, bidId) + Count(b, kind, bidId)
  {
    if a == [] {
      assert a + b == b;
    } else {
      assert (a + b)[1..] == a[1..] + b;
      CountConcat(a[1..], b, kind, bidId);
    }
  }

  function Mark(w: Window, kind: Kind): Option<int> {
    match kind case Warning => w.warnedAt case Cancellation => w.cancelledAt
  }

  /** The bid's window is there without the mark: a notice of that kind is still possible. */
  predicate Armed(store: Store, kind: Kind, bidId: string) {
    bidId in store && Mark(store[bidId], kind).None?
  }

  /** A step that arms a notice that was not possible before: a new epoch. */
  predicate Opens(store: Store, step: Step, kind: Kind, bidId: string) {
    !Armed(store, kind, bidId) && Armed(AfterStep(store, step).store, kind, bidId)
  }

  function Epochs(store: Store, steps: seq<Step>, kind: Kind, bidId: string): nat
    decreases steps
  {
    if steps == [] then 0
    else (if Opens(store, steps[0], kind, bidId) then 1 else 0)
         + Epochs(AfterStep(store, steps[0]).store, steps[1..], kind, bidId)
  }

  function One(b: bool): nat { if b then 1 else 0 }

  lemma StepSpendsArming(store: Store, step: Step, kind: Kind, bidId: string)
    ensures Count(AfterStep(store, step).notices, kind, bidId) + One(Armed(AfterStep(store, step).store, kind, bidId))
         <= One(Armed(store, kind, bidId)) + One(Opens(store, step, kind, bidId))
  {
    var ns := AfterStep(store, step).notices;
    if ns != [] {
      assert ns[1..] == [];
    }
  }

  /** Over every run, whatever the clock does, each epoch of a bid sees at most one notice of each kind. */
  lemma {:induction false} OncePerEpoch(store: Store, steps: seq<Step>, kind: Kind, bidId: string)
    ensures Count(AfterRun(store, steps).notices, kind, bidId) + One(Armed(AfterRun(store, steps).store, kind, bidId))
         <= One(Armed(store, kind, bidId)) + Epochs(store, steps, kind, bidId)
    decreases steps
  {
    if steps != [] {
      var first := AfterStep(store, steps[0]);
      StepSpendsArming(store, steps[0], kind, bidId);
      OncePerEpoch(first.store, steps[1..], kind, bidId);
      CountConcat(first.notices, AfterRun(first.store, steps[1..]).notices, kind, bidId);
    }
  }

  /** Rows repeating the stored acceptedAt text leave the window, marks included, as it was. */
  lemma {:induction false} HydrationKeepsMarks(store: Store, rows: seq<Row>, now: int, bidId: string)
    requires bidId in store && forall r :: r in rows && r.bidId == bidId ==> r.acceptedAt == store[bidId].acceptedAt
    ensures bidId in AfterHydrate(store, rows, now) && AfterHydrate(store, rows, now)[bidId] == store[bidId]
  {
    if rows != [] {
      assert rows[|rows| - 1] in rows;
      HydrationKeepsMarks(store, rows[..|rows| - 1], now, bidId);
    }
  }

  /** The server row carries no mark of this kind. */
  predicate Unmarked(r: Row, kind: Kind) {
    match kind
    case Warning => r.warnedAt.None?
    case Cancellation => r.status != "cancelled" && r.status != "expired"
  }

  /**
   A row whose acceptedAt text differs, or a row for a bid already paid, replaces the local marks by
   the server's; it starts an epoch exactly when the server has no such mark and none was possible before.
   */
  lemma HydrationReplaces(store: Store, r: Row, now: int)
    requires r.bidId in store ==> r.acceptedAt != store[r.bidId].acceptedAt
    ensures AfterHydrate(store, [r], now)[r.bidId] == Mapped(r, now)
    ensures forall kind :: Opens(store, HydrateStep([r], now), kind, r.bidId)
                      <==> Unmarked(r, kind) && !Armed(store, kind, r.bidId)
  {
    OneRow(store, r, now);
    hide AfterHydrate;
  }

  lemma OneRow(store: Store, r: Row, now: int)
    ensures AfterHydrate(store, [r], now) == AfterRow(store, r, now)
  {
    assert [r][..0] == [];
    assert AfterHydrate(store, [], now) == store;
  }

  /** The acceptedAt text the bid's window carries after these rows; None when it has no window. */
  function TextAfter(store: Store, rows: seq<Row>, bidId: string): Option<TimeText> {
    if rows == [] then (if bidId in store then Some(store[bidId].acceptedAt) else None)
    else if rows[|rows| - 1].bidId == bidId then Some(rows[|rows| - 1].acceptedAt)
    else TextAfter(store, rows[..|rows| - 1], bidId)
  }

  /** The last row of the bid whose acceptedAt text differs from the one before it: the last one written. */
  function LastWritten(store: Store, rows: seq<Row>, bidId: string): Option<Row> {
    if rows == [] then None
    else
      var (init, last) := (rows[..|rows| - 1], rows[|rows| - 1]);
      if last.bidId == bidId && TextAfter(store, init, bidId) != Some(last.acceptedAt) then Some(last)
      else LastWritten(store, init, bidId)
  }

  /** However many rows arrive, the window is the one stored before or that of the last row written. */
  lemma {:induction false} HydratedWindow(store: Store, rows: seq<Row>, now: int, bidId: string)
    ensures var after := AfterHydrate(store, rows, now);
      && TextAfter(store, rows, bidId) == (if bidId in after then Some(after[bidId].acceptedAt) else None)
      && match LastWritten(store, rows, bidId)
         case Some(r) => bidId in after && after[bidId] == Mapped(r, now)
         case None => if bidId in store then bidId in after && after[bidId] == store[bidId] else bidId !in after
  {
    if rows != [] { HydratedWindow(store, rows[..|rows| - 1], now, bidId); }
  }

  /** What a step must bring to start an epoch, and enough. */
  predicate Reopens(store: Store, step: Step, kind: Kind, bidId: string) {
    match step
    case TickStep(_, _) => false
    case DropStep(_) => false
    case SeedStep(id, expires, accepted, _, _) => id == bidId && (bidId !in store || expires.At? || accepted.At?)
    case HydrateStep(rows, _) =>
      var last := LastWritten(store, rows, bidId);
      last.Some? && Unmarked(last.value, kind)
  }

  /**
   A step starts an epoch exactly when no such notice was possible and it seeds the bid from its own
   times, or afresh, or hydrates it with rows of which the last one written is unmarked.
   */
  lemma EpochsStartExactly(store: Store, step: Step, kind: Kind, bidId: string)
    ensures Opens(store, step, kind, bidId) <==> !Armed(store, kind, bidId) && Reopens(store, step, kind, bidId)
  {
    match step {
      case HydrateStep(rows, now) =>
        HydratedWindow(store, rows, now, bidId);
        hide AfterHydrate, LastWritten, TextAfter;
      case _ =>
    }
  }

  /** Hydrating with several rows is hydrating with each in turn. */
  lemma {:induction false} HydrationIsRowByRow(store: Store, rows: seq<Row>, now: int)
    ensures AfterHydrate(store, rows, now) == AfterRun(store, RowSteps(rows, now)).store
  {
    if rows != [] {
      var (init, last) := (rows[..|rows| - 1], rows[|rows| - 1]);
      HydrationIsRowByRow(store, init, now);
      OneRow(AfterHydrate(store, init, now), last, now);
      RunAppend(store, RowSteps(init, now), HydrateStep([last], now));
      assert RowSteps(rows, now) == RowSteps(init, now) + [HydrateStep([last], now)];
      hide AfterRun;
    }
  }

  function RowSteps(rows: seq<Row>, now: int): (r: seq<Step>)
    ensures |r| == |rows| && forall i :: 0 <= i < |rows| ==> r[i] == HydrateStep([rows[i]], now)
  {
    seq(|rows|, i requires 0 <= i < |rows| => HydrateStep([rows[i]], now))
  }

  lemma {:induction false} RunAppend(store: Store, steps: seq<Step>, step: Step)
    ensures AfterRun(store, steps + [step]).store == AfterStep(AfterRun(store, steps).store, step).store
    decreases steps
  {
    hide AfterStep;
    if steps == [] {
      assert steps + [step] == [step] && [step][1..] == [];
      assert AfterRun(AfterStep(store, step).store, []).store == AfterStep(store, step).store;
    } else {
      assert (steps + [step])[1..] == steps[1..] + [step];
      RunAppend(AfterStep(store, steps[0]).store, steps[1..], step);
    }
  }

  /**
   What can start an epoch: seeding from the bid's own times or afresh, or a hydration row that differs
   or finds no window.
   */
  lemma {:induction false} EpochCauses(store: Store, step: Step, kind: Kind, bidId: string)
    requires Opens(store, step, kind, bidId)
    ensures step.SeedStep? || step.HydrateStep?
    ensures step.SeedStep? ==> step.bidId == bidId && (bidId !in store || step.expiresAt.At? || step.acceptedAt.At?)
    ensures step.HydrateStep? ==>
      exists r :: r in step.rows && r.bidId == bidId && (bidId !in store || r.acceptedAt != store[bidId].acceptedAt)
  {
    match step {
      case HydrateStep(rows, now) =>
        if bidId in store && forall r :: r in rows && r.bidId == bidId ==> r.acceptedAt == store[bidId].acceptedAt {
          HydrationKeepsMarks(store, rows, now, bidId);
        } else if bidId !in store {
          HydrationAdds(store, rows, now, bidId);
        }
      case _ =>
    }
  }

  lemma {:induction false} HydrationAdds(store: Store, rows: seq<Row>, now: int, bidId: string)
    requires bidId !in store && bidId in AfterHydrate(store, rows, now)
    ensures exists r :: r in rows && r.bidId == bidId
  {
    if rows != [] {
      if rows[|rows| - 1].bidId == bidId {
        assert rows[|rows| - 1] in rows;
      } else {
        HydrationAdds(store, rows[..|rows| - 1], now, bidId);
        var r :| r in rows[..|rows| - 1] && r.bidId == bidId;
        assert r in rows;
      }
    }
  }

  lemma CountOne(n: Notice)
    ensures Count([n], n.kind, n.bidId) == 1
  {
    assert [n][1..] == [];
  }

  /** Re-seeding a bid that was already warned warns again: a new epoch, not a second notice in the old one. */
  lemma ReseedWarnsAgain(bidId: string, e: int)
    ensures var seed := SeedStep(bidId, B.At(e), B.Absent, ACCEPTANCE_WINDOW_MIN, e - 2);
      Count(AfterRun(map[], [seed, TickStep(bidId, e - 2), seed, TickStep(bidId, e - 1)]).notices, Warning, bidId) == 2
  {
    var seed := SeedStep(bidId, B.At(e), B.Absent, ACCEPTANCE_WINDOW_MIN, e - 2);
    var w := Window(bidId, IsoZ(e - ACCEPTANCE_WINDOW_MIN * B.MIN), IsoZ(e), None, None);
    var (t1, t2) := (TickStep(bidId, e - 2), TickStep(bidId, e - 1));
    var s1: Store := map[bidId := w];
    var s2 := AfterTick(s1, bidId, e - 2).store;
    var (n1, n2) := (Notice(Warning, bidId, e - 2), Notice(Warning, bidId, e - 1));
    assert AfterStep(map[], seed) == Outcome(s1, []);
    assert AfterStep(s1, t1) == Outcome(s2, [n1]);
    assert AfterStep(s2, seed).store == s1;
    assert AfterStep(s1, t2).notices == [n2];
    assert [seed, t1, seed, t2][1..] == [t1, seed, t2] && [t1, seed, t2][1..] == [seed, t2];
    assert [seed, t2][1..] == [t2] && [t2][1..] == [];
    assert AfterRun(s1, [t2]).notices == [n2];
    assert AfterRun(s2, [seed, t2]).notices == [n2];
    assert AfterRun(s1, [t1, seed, t2]).notices == [n1, n2];
    assert AfterRun(map[], [seed, t1, seed, t2]).notices == [n1, n2];
    assert [n1, n2] == [n1] + [n2];
    CountConcat([n1], [n2], Warning, bidId);
    CountOne(n1);
    CountOne(n2);
  }

  // ----- lockstep with the payment gate -----

  /**
   A timer seeded from the bid's own expiresAt is "expired" exactly when the pay button is closed,
   except at the single instant of expiry, where both the expired banner and the button are on.
   */
  lemma TimerAndPayButton(b: B.Bid, store: Store, effectiveWindow: int, mounted: int, now: int)
    requires b.status == "ACCEPTED" && !B.IsBidPaid(b) && b.expiresAt.At?
    ensures var w := SeededWindow(store, b.id, b.expiresAt, b.acceptedAt, effectiveWindow, mounted);
      (IsExpired(w, now) <==> !B.IsBidPayWindowOpen(b, now)) <==> now != b.expiresAt.ms
  {
  }

  // ----- from a seed or a server row to its notices -----

  /** One warning at the first reading in the five minutes before `e`, one cancellation at the first from `e` on. */
  function NoticesUntil(bidId: string, times: seq<int>, e: int, warn: bool, cancel: bool): seq<Notice> {
    (if warn then NoticeOf(Warning, bidId, FirstWithin(times, e - 300000, e)) else [])
    + (if cancel then NoticeOf(Cancellation, bidId, FirstFrom(times, e)) else [])
  }

  /**
   After mounting, a bid with a readable expiresAt is counted down to it; one with only a readable
   acceptedAt to that time plus its window; a bid without either, and without a stored window, to the
   mounting time plus its window of at least a minute. Whatever the store held, both notices follow.
   */
  lemma SeedThenTicks(
      store: Store, bidId: string, expiresAt: B.Stamp, acceptedAt: B.Stamp, minutes: int, now: int, times: seq<int>)
    requires NonDecreasing(times) && (expiresAt.At? || acceptedAt.At? || bidId !in store)
    ensures var w := SeededWindow(store, bidId, expiresAt, acceptedAt, minutes, now);
      var e := if expiresAt.At? then expiresAt.ms
               else if acceptedAt.At? then acceptedAt.ms + minutes * 60000
               else now + (if minutes > 1 then minutes else 1) * 60000;
      && w.bidId == bidId && w.expiresAt == IsoZ(e)
      && w.acceptedAt == IsoZ(if acceptedAt.At? then acceptedAt.ms
                              else if expiresAt.At? then e - minutes * 60000 else now)
      && Ticks(store[bidId := w], bidId, times).notices == NoticesUntil(bidId, times, e, true, true)
  {
    var w := SeededWindow(store, bidId, expiresAt, acceptedAt, minutes, now);
    assert w.expiresAt.IsoZ?;
    TicksExact(store[bidId := w], bidId, times, w.expiresAt.ms);
  }

  /** A stored window is shown again when the bid's own times cannot be read. */
  lemma StoredWindowStays(store: Store, bidId: string, expiresAt: B.Stamp, acceptedAt: B.Stamp, minutes: int, now: int)
    requires !expiresAt.At? && !acceptedAt.At? && bidId in store
    ensures SeededWindow(store, bidId, expiresAt, acceptedAt, minutes, now) == store[bidId]
  {
  }

  /**
   A server row taken over is counted down to its own expiry; a warning the server knows of is not
   repeated, nor a cancellation the server calls "cancelled" or "expired".
   */
  lemma RowThenTicks(store: Store, r: Row, now: int, times: seq<int>, e: int)
    requires r.bidId in store ==> r.acceptedAt != store[r.bidId].acceptedAt
    requires r.expiresAt.Read() == B.Ms(e) && NonDecreasing(times)
    ensures var after := AfterHydrate(store, [r], now);
      && r.bidId in after && after[r.bidId].bidId == r.bidId && after[r.bidId].acceptedAt == r.acceptedAt
      && after[r.bidId].expiresAt == r.expiresAt
      && Ticks(after, r.bidId, times).notices
         == NoticesUntil(r.bidId, times, e, r.warnedAt.None?, r.status != "cancelled" && r.status != "expired")
  {
    OneRow(store, r, now);
    hide AfterHydrate;
    TicksExact(AfterRow(store, r, now), r.bidId, times, e);
  }

  /** Marks record the reading of the clock and change nothing else of the window. */
  lemma MarksRecord(store: Store, bidId: string, kind: Kind, now: int)
    requires bidId in store
    ensures var w := Marked(store, bidId, kind, now)[bidId];
      && (kind == Warning ==> w == store[bidId].(warnedAt := Some(now)))
      && (kind == Cancellation ==> w == store[bidId].(cancelledAt := Some(now)))
      && Marked(store, bidId, kind, now) - {bidId} == store - {bidId}
  {
  }
}
