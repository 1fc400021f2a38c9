/**
 Runs of the booking tables: guarded placements, later status changes, imported and
 removed blocks. The guard is the comparison of requested rooms with the free units.
 */
module InventoryRun {
  import opened Base
  import opened Availability

  /** The two capacity lookups for each (hotel, room); fixed during a run. */
  type Signals = (string, string) -> (UnitRows, QuantityAnswer)

  datatype State = State(bids: seq<Bid>, blocks: seq<Block>)

  datatype Step =
    | Place(bid: Bid)                          // guarded insert, in any status
    | SetStatus(index: nat, status: Status)    // accept, confirm, check in, release: not guarded
    | Rewrite(index: nat, bid: Bid)            // flash insert or change of room, dates or count: not guarded
    | Import(block: Block)                     // walk-in, OTA or manual block: not guarded
    | Remove(index: nat)                       // block deleted

  function CapacityOf(signals: Signals, hotelId: string, roomId: string): Option<int> {
    Capacity(signals(hotelId, roomId).0, signals(hotelId, roomId).1)
  }

  function Free(
      signals: Signals, st: State, hotelId: string, roomId: string, from: Night, to: Night): Option<Availability>
  {
    UnitsFree(st.bids, st.blocks, signals(hotelId, roomId).0, signals(hotelId, roomId).1, hotelId, roomId, from, to)
  }

  /** The placement guard: dates that do not form a range, or no availability answer, let the bid through. */
  predicate Admits(signals: Signals, st: State, b: Bid) {
    b.checkIn.Some? && b.checkOut.Some? && b.checkIn.value < b.checkOut.value ==>
      match Free(signals, st, b.hotelId, b.roomId, b.checkIn.value, b.checkOut.value)
      case None => true
      case Some(a) => a.free >= Rooms(b.numRooms)
  }

  function Next(signals: Signals, st: State, step: Step): State {
    match step
    case Place(b) => if Admits(signals, st, b) then st.(bids := st.bids + [b]) else st
    case SetStatus(i, s) => if i < |st.bids| then st.(bids := st.bids[i := st.bids[i].(status := s)]) else st
    case Rewrite(i, b) => st.(bids := if i < |st.bids| then st.bids[i := b] else st.bids + [b])
    case Import(b) => st.(blocks := st.blocks + [b])
    case Remove(i) => if i < |st.blocks| then st.(blocks := st.blocks[..i] + st.blocks[i + 1..]) else st
  }

  function Run(signals: Signals, st: State, steps: seq<Step>): State
    decreases steps
  {
    if steps == [] then st else Run(signals, Next(signals, st, steps[0]), steps[1..])
  }

  /** Units of the room held on a night by blocking bids and blocks together. */
  function Held(st: State, hotelId: string, roomId: string, night: Night): nat {
    BidLoad(st.bids, hotelId, roomId, night) + BlockLoad(st.blocks, hotelId, roomId, night)
  }

  /** Units a step puts on a night without passing the guard; an accept the guard would admit counts as guarded. */
  function Unguarded(signals: Signals, st: State, step: Step, hotelId: string, roomId: string, night: Night): nat {
    match step
    case Place(_) => 0
    case SetStatus(i, s) =>
      if i < |st.bids| && !Admits(signals, st, st.bids[i]) then
        Rise(st.bids[i], st.bids[i].(status := s), hotelId, roomId, night)
      else 0
    case Rewrite(i, b) =>
      if i < |st.bids| then Rise(st.bids[i], b, hotelId, roomId, night) else BidWeight(b, hotelId, roomId, night)
    case Import(b) => BlockWeight(b, hotelId, roomId, night)
    case Remove(_) => 0
  }

  /** What replacing one row by another adds to a night. */
  function Rise(before: Bid, after: Bid, hotelId: string, roomId: string, night: Night): nat {
    Max(0, BidWeight(after, hotelId, roomId, night) - BidWeight(before, hotelId, roomId, night))
  }

  function TotalUnguarded(
      signals: Signals, st: State, steps: seq<Step>, hotelId: string, roomId: string, night: Night): nat
    decreases steps
  {
    if steps == [] then 0
    else Unguarded(signals, st, steps[0], hotelId, roomId, night)
         + TotalUnguarded(signals, Next(signals, st, steps[0]), steps[1..], hotelId, roomId, night)
  }

  // ----- how each kind of write moves the load -----

  lemma BidLoadAppend(bids: seq<Bid>, b: Bid, hotelId: string, roomId: string, night: Night)
    ensures BidLoad(bids + [b], hotelId, roomId, night)
         == BidLoad(bids, hotelId, roomId, night) + BidWeight(b, hotelId, roomId, night)
  {
    assert (bids + [b])[..|bids|] == bids;
  }

  lemma {:induction false} BidLoadUpdate(bids: seq<Bid>, i: nat, b: Bid, hotelId: string, roomId: string, night: Night)
    requires i < |bids|
    ensures BidLoad(bids[i := b], hotelId, roomId, night)
         == BidLoad(bids, hotelId, roomId, night)
            - BidWeight(bids[i], hotelId, roomId, night) + BidWeight(b, hotelId, roomId, night)
  {
    var k := |bids| - 1;
    if i == k {
      assert bids[i := b][..k] == bids[..k];
    } else {
      assert bids[i := b][..k] == bids[..k][i := b];
      BidLoadUpdate(bids[..k], i, b, hotelId, roomId, night);
    }
  }

  lemma {:induction false} BlockLoadRemove(blocks: seq<Block>, i: nat, hotelId: string, roomId: string, night: Night)
    requires i < |blocks|
    ensures BlockLoad(blocks[..i] + blocks[i + 1..], hotelId, roomId, night)
         == BlockLoad(blocks, hotelId, roomId, night) - BlockWeight(blocks[i], hotelId, roomId, night)
  {
    hide BlockWeight;
    var k := |blocks| - 1;
    var rest := blocks[..i] + blocks[i + 1..];
    if i == k {
      assert rest == blocks[..k];
    } else {
      assert rest[..k - 1] == blocks[..k][..i] + blocks[..k][i + 1..];
      assert rest[k - 1] == blocks[k];
      BlockLoadRemove(blocks[..k], i, hotelId, roomId, night);
    }
  }

  lemma BlockLoadAppend(blocks: seq<Block>, b: Block, hotelId: string, roomId: string, night: Night)
    ensures BlockLoad(blocks + [b], hotelId, roomId, night)
         == BlockLoad(blocks, hotelId, roomId, night) + BlockWeight(b, hotelId, roomId, night)
  {
    assert (blocks + [b])[..|blocks|] == blocks;
  }

  /** The reported free count leaves room on every night of the range. */
  lemma FreeFitsEveryNight(
      signals: Signals, st: State, hotelId: string, roomId: string, from: Night, to: Night, night: Night)
    requires from <= night < to && Free(signals, st, hotelId, roomId, from, to).Some?
    ensures var a := Free(signals, st, hotelId, roomId, from, to).value;
      && CapacityOf(signals, hotelId, roomId) == Some(a.capacity)
      && a.free >= 0 && (a.free > 0 ==> Held(st, hotelId, roomId, night) + a.free <= a.capacity)
  {
    NothingDropped(st.bids, st.blocks, hotelId, roomId, from, to, night);
  }

  // ----- the guarded step -----

  /** Whenever capacity is known, an admitted bid leaves each night it takes within capacity. */
  lemma AdmissionFits(signals: Signals, st: State, b: Bid, night: Night)
    requires b.hotelId != "" && b.roomId != "" && CapacityOf(signals, b.hotelId, b.roomId).Some?
    requires Admits(signals, st, b) && BidWeight(b, b.hotelId, b.roomId, night) > 0
    ensures Held(Next(signals, st, Place(b)), b.hotelId, b.roomId, night)
         <= CapacityOf(signals, b.hotelId, b.roomId).value
  {
    FreeFitsEveryNight(signals, st, b.hotelId, b.roomId, b.checkIn.value, b.checkOut.value, night);
    BidLoadAppend(st.bids, b, b.hotelId, b.roomId, night);
  }

  /** A status change that raises the load turns a bid that held nothing into one that holds its stay. */
  lemma CheckedAcceptFits(signals: Signals, st: State, i: nat, s: Status, night: Night)
    requires i < |st.bids| && Admits(signals, st, st.bids[i])
    requires var b := st.bids[i];
      && b.hotelId != "" && b.roomId != "" && CapacityOf(signals, b.hotelId, b.roomId).Some?
      && Rise(b, b.(status := s), b.hotelId, b.roomId, night) > 0
    ensures var b := st.bids[i];
      Held(Next(signals, st, SetStatus(i, s)), b.hotelId, b.roomId, night)
      <= CapacityOf(signals, b.hotelId, b.roomId).value
  {
    var b := st.bids[i];
    FreeFitsEveryNight(signals, st, b.hotelId, b.roomId, b.checkIn.value, b.checkOut.value, night);
    BidLoadUpdate(st.bids, i, b.(status := s), b.hotelId, b.roomId, night);
  }

  /** The bids or blocks a step writes move the load by the weights of the rows concerned. */
  lemma StepMoves(signals: Signals, st: State, step: Step, hotelId: string, roomId: string, night: Night)
    ensures var (before, after) :=
      (Held(st, hotelId, roomId, night), Held(Next(signals, st, step), hotelId, roomId, night));
      match step
      case Place(b) => after == before + if Admits(signals, st, b) then BidWeight(b, hotelId, roomId, night) else 0
      case SetStatus(i, s) =>
        after == before + if i < |st.bids| then
          BidWeight(st.bids[i].(status := s), hotelId, roomId, night) - BidWeight(st.bids[i], hotelId, roomId, night)
          else 0
      case Rewrite(i, b) =>
        after == before + BidWeight(b, hotelId, roomId, night)
                 - if i < |st.bids| then BidWeight(st.bids[i], hotelId, roomId, night) else 0
      case Import(b) => after == before + BlockWeight(b, hotelId, roomId, night)
      case Remove(i) => after == before - if i < |st.blocks| then BlockWeight(st.blocks[i],
           hotelId, roomId, night) else 0
  {
    hide Admits, BidWeight, BlockWeight, BidLoad, BlockLoad;
    match step {
      case Place(b) => BidLoadAppend(st.bids, b, hotelId, roomId, night);
      case SetStatus(i, s) =>
        if i < |st.bids| { BidLoadUpdate(st.bids, i, st.bids[i].(status := s), hotelId, roomId, night); }
      case Rewrite(i, b) =>
        if i < |st.bids| {
          BidLoadUpdate(st.bids, i, b, hotelId, roomId, night);
        } else {
          BidLoadAppend(st.bids, b, hotelId, roomId, night);
        }
      case Import(b) => BlockLoadAppend(st.blocks, b, hotelId, roomId, night);
      case Remove(i) => if i < |st.blocks| { BlockLoadRemove(st.blocks, i, hotelId, roomId, night); }
    }
  }

  lemma StepBound(
      signals: Signals, st: State, step: Step, hotelId: string, roomId: string, night: Night, cap: int)
    requires hotelId != "" && roomId != "" && CapacityOf(signals, hotelId, roomId) == Some(cap)
    ensures Held(Next(signals, st, step), hotelId, roomId, night)
         <= Max(cap, Held(st, hotelId, roomId, night) + Unguarded(signals, st, step, hotelId, roomId, night))
  {
    hide Held, Next, Admits, CapacityOf;
    StepMoves(signals, st, step, hotelId, roomId, night);
    match step {
      case Place(b) =>
        if Admits(signals, st, b) && BidWeight(b, hotelId, roomId, night) > 0 {
          AdmissionFits(signals, st, b, night);
        }
      case SetStatus(i, s) =>
        if i < |st.bids| && Admits(signals, st, st.bids[i])
           && Rise(st.bids[i], st.bids[i].(status := s), hotelId, roomId, night) > 0 {
          CheckedAcceptFits(signals, st, i, s, night);
        }
      case _ =>
    }
  }

  /**
   Over every run a night exceeds capacity by no more than what the steps that bypass the guard put
   on it: blocks, rewritten rows, and accepts of bids the guard would refuse at that moment.
   */
  lemma {:induction false} NoGuardedOversell(
      signals: Signals, st: State, steps: seq<Step>, hotelId: string, roomId: string, night: Night, cap: int)
    requires hotelId != "" && roomId != "" && CapacityOf(signals, hotelId, roomId) == Some(cap)
    ensures Held(Run(signals, st, steps), hotelId, roomId, night)
         <= Max(cap, Held(st, hotelId, roomId, night)) + TotalUnguarded(signals, st, steps, hotelId, roomId, night)
    decreases steps
  {
    if steps != [] {
      StepBound(signals, st, steps[0], hotelId, roomId, night, cap);
      NoGuardedOversell(signals, Next(signals, st, steps[0]), steps[1..], hotelId, roomId, night, cap);
    }
  }

  /** The step passes the guard: a placement, a removal, or a status change that is admitted if it starts a hold. */
  predicate Passes(signals: Signals, st: State, step: Step) {
    match step
    case Place(_) => true
    case SetStatus(i, s) =>
      i < |st.bids| && Blocking(s) && !Blocking(st.bids[i].status) ==> Admits(signals, st, st.bids[i])
    case Rewrite(_, _) => false
    case Import(_) => false
    case Remove(_) => true
  }

  /** Placements and removals pass; an accept of a stay that held nothing passes when the guard admits it. */
  lemma PassingSteps(signals: Signals, st: State, i: nat, s: Status, b: Bid, k: Block)
    ensures Passes(signals, st, Place(b)) && Passes(signals, st, Remove(i))
    ensures i < |st.bids| ==>
      (Passes(signals, st, SetStatus(i, s)) <==>
        (s in {Accepted, Counter, Confirmed, CheckedIn}
         && st.bids[i].status in {Pending, CheckedOut, Rejected, Expired, Cancelled}
         ==> Admits(signals, st, st.bids[i])))
    ensures !Passes(signals, st, Rewrite(i, b)) && !Passes(signals, st, Import(k))
  {
    hide Admits;
  }

  predicate Rechecked(signals: Signals, st: State, steps: seq<Step>)
    decreases steps
  {
    steps == []
    || (Passes(signals, st, steps[0]) && Rechecked(signals, Next(signals, st, steps[0]), steps[1..]))
  }

  /** Asking the guard again at every accept is enough: such runs never take a night above capacity. */
  lemma {:induction false} RecheckedRunsNeverOversell(
      signals: Signals, st: State, steps: seq<Step>, hotelId: string, roomId: string, night: Night, cap: int)
    requires hotelId != "" && roomId != "" && CapacityOf(signals, hotelId, roomId) == Some(cap)
    requires Rechecked(signals, st, steps) && Held(st, hotelId, roomId, night) <= cap
    ensures Held(Run(signals, st, steps), hotelId, roomId, night) <= cap
    decreases steps
  {
    hide Admits, CapacityOf, Held, Next;
    if steps != [] {
      StepBound(signals, st, steps[0], hotelId, roomId, night, cap);
      RecheckedRunsNeverOversell(signals, Next(signals, st, steps[0]), steps[1..], hotelId, roomId, night, cap);
    }
  }

  // ----- full nights -----

  /** A night at or over capacity makes every range containing it report no free unit. */
  lemma FullNightReportsNothingFree(
      signals: Signals, st: State, hotelId: string, roomId: string, from: Night, to: Night, night: Night, cap: int)
    requires hotelId != "" && roomId != "" && CapacityOf(signals, hotelId, roomId) == Some(cap)
    requires from <= night < to && Held(st, hotelId, roomId, night) >= cap
    ensures Free(signals, st, hotelId, roomId, from, to).Some?
    ensures Free(signals, st, hotelId, roomId, from, to).value.free == 0
  {
    FreeFitsEveryNight(signals, st, hotelId, roomId, from, to, night);
  }

  /** The step gives something back on that night. */
  predicate Releases(st: State, step: Step, hotelId: string, roomId: string, night: Night) {
    match step
    case Place(_) => false
    case Import(_) => false
    case SetStatus(i, s) =>
      i < |st.bids| &&
      BidWeight(st.bids[i].(status := s), hotelId, roomId, night) < BidWeight(st.bids[i], hotelId, roomId, night)
    case Rewrite(i, b) =>
      i < |st.bids| && BidWeight(b, hotelId, roomId, night) < BidWeight(st.bids[i], hotelId, roomId, night)
    case Remove(i) => i < |st.blocks| && BlockWeight(st.blocks[i], hotelId, roomId, night) > 0
  }

  predicate NeverReleases(signals: Signals, st: State, steps: seq<Step>, hotelId: string, roomId: string, night: Night)
    decreases steps
  {
    steps == [] ||
    (!Releases(st, steps[0], hotelId, roomId, night)
     && NeverReleases(signals, Next(signals, st, steps[0]), steps[1..], hotelId, roomId, night))
  }

  predicate Wants(b: Bid, hotelId: string, roomId: string, night: Night) {
    b.hotelId == hotelId && b.roomId == roomId && b.checkIn.Some? && b.checkOut.Some?
    && b.checkIn.value <= night < b.checkOut.value
  }

  /** A step releases something on a night exactly when the units held that night fall. */
  lemma ReleasesExactly(signals: Signals, st: State, step: Step, hotelId: string, roomId: string, night: Night)
    ensures Releases(st, step, hotelId, roomId, night)
       <==> Held(Next(signals, st, step), hotelId, roomId, night) < Held(st, hotelId, roomId, night)
  {
    hide Held, Next, Admits, BidWeight, BlockWeight;
    StepMoves(signals, st, step, hotelId, roomId, night);
  }

  /** Until something on a full night is released, no bid for it is admitted and it stays full. */
  lemma {:induction false} FullNightStaysShut(
      signals: Signals, st: State, steps: seq<Step>, hotelId: string, roomId: string, night: Night, cap: int, b: Bid)
    requires hotelId != "" && roomId != "" && CapacityOf(signals, hotelId, roomId) == Some(cap)
    requires Held(st, hotelId, roomId, night) >= cap
    requires NeverReleases(signals, st, steps, hotelId, roomId, night)
    requires Wants(b, hotelId, roomId, night)
    ensures Held(Run(signals, st, steps), hotelId, roomId, night) >= cap
    ensures !Admits(signals, Run(signals, st, steps), b)
    decreases steps
  {
    hide Held, Next, Releases, CapacityOf;
    if steps == [] {
      FullNightReportsNothingFree(signals, st, hotelId, roomId, b.checkIn.value, b.checkOut.value, night, cap);
    } else {
      ReleasesExactly(signals, st, steps[0], hotelId, roomId, night);
      FullNightStaysShut(signals, Next(signals, st, steps[0]), steps[1..], hotelId, roomId, night, cap, b);
    }
  }

  // ----- where the guard does not protect -----

  /** What the guard should mean: each night of the stay has room for it. */
  ghost predicate Fits(st: State, b: Bid, cap: int)
    requires b.checkIn.Some? && b.checkOut.Some?
  {
    forall n :: b.checkIn.value <= n < b.checkOut.value ==> Held(st, b.hotelId, b.roomId, n) + Rooms(b.numRooms) <= cap
  }

  /** The guard refuses something exactly when capacity is known and some night lacks room. */
  lemma GuardExact(signals: Signals, st: State, b: Bid)
    requires b.checkIn.Some? && b.checkOut.Some? && b.hotelId != "" && b.roomId != ""
    ensures var cap := CapacityOf(signals, b.hotelId, b.roomId);
      Admits(signals, st, b) <==> cap.None? || Fits(st, b, cap.value)
  {
    var (from, to) := (b.checkIn.value, b.checkOut.value);
    if CapacityOf(signals, b.hotelId, b.roomId).Some? && from < to {
      PeakOfTables(st.bids, st.blocks, b.hotelId, b.roomId, from, to);
      var peak := Peak(Occupations(st.bids, st.blocks, b.hotelId, Some(b.roomId), from, to), b.roomId, from, to);
      var n :| from <= n < to &&
        BidLoad(st.bids, b.hotelId, b.roomId, n) + BlockLoad(st.blocks, b.hotelId, b.roomId, n) == peak;
      assert Held(st, b.hotelId, b.roomId, n) == peak;
    }
  }

  /**
   When a bid that holds nothing starts to hold its stay, every night of the stay ends within
   capacity exactly when the placement guard, asked again at that moment, would admit it.
   */
  lemma LateAcceptExact(signals: Signals, st: State, i: nat, s: Status, cap: int)
    requires i < |st.bids| && !Blocking(st.bids[i].status) && Blocking(s)
    requires st.bids[i].checkIn.Some? && st.bids[i].checkOut.Some?
    requires st.bids[i].hotelId != "" && st.bids[i].roomId != ""
    requires CapacityOf(signals, st.bids[i].hotelId, st.bids[i].roomId) == Some(cap)
    ensures var b := st.bids[i];
      (forall n :: b.checkIn.value <= n < b.checkOut.value ==>
         Held(Next(signals, st, SetStatus(i, s)), b.hotelId, b.roomId, n) <= cap)
      <==> Admits(signals, st, b)
  {
    hide Admits, Held, Next, CapacityOf;
    var b := st.bids[i];
    GuardExact(signals, st, b);
    forall n | b.checkIn.value <= n < b.checkOut.value
      ensures Held(Next(signals, st, SetStatus(i, s)), b.hotelId, b.roomId, n)
           == Held(st, b.hotelId, b.roomId, n) + Rooms(b.numRooms)
    {
      StepMoves(signals, st, SetStatus(i, s), b.hotelId, b.roomId, n);
    }
  }

  lemma RunOfFour(signals: Signals, st: State, a: Step, b: Step, c: Step, d: Step)
    ensures Run(signals, st, [a, b, c, d])
         == Next(signals, Next(signals, Next(signals, Next(signals, st, a), b), c), d)
  {
    var s1 := Next(signals, st, a);
    var s2 := Next(signals, s1, b);
    var s3 := Next(signals, s2, c);
    assert [a, b, c, d][1..] == [b, c, d] && [b, c, d][1..] == [c, d] && [c, d][1..] == [d] && [d][1..] == [];
    assert Run(signals, s3, [d]) == Next(signals, s3, d);
    assert Run(signals, s2, [c, d]) == Run(signals, s3, [d]);
    assert Run(signals, s1, [b, c, d]) == Run(signals, s2, [c, d]);
  }

  const WAITING := Bid("b", "h", "r", Pending, Some(1), Some(0), Some(1), None)
  const TAKEN := WAITING.(status := Accepted)

  lemma TwoPlaced(signals: Signals)
    requires CapacityOf(signals, "h", "r") == Some(1)
    ensures Next(signals, Next(signals, State([], []), Place(WAITING)), Place(WAITING)) == State([WAITING, WAITING], [])
  {
    hide Admits, CapacityOf, BidWeight;
    var (s0, s1) := (State([], []), State([WAITING], []));
    forall n ensures Held(s0, "h", "r", n) == 0 && Held(s1, "h", "r", n) == 0 {
      BidLoadAppend([], WAITING, "h", "r", n);
      WaitingWeighsNothing(n);
      assert [] + [WAITING] == [WAITING];
    }
    GuardExact(signals, s0, WAITING);
    GuardExact(signals, s1, WAITING);
  }

  lemma WaitingWeighsNothing(night: Night)
    ensures BidWeight(WAITING, "h", "r", night) == 0 && BidWeight(TAKEN, "h", "r", 0) == 1
  {
  }

  lemma BothAccepted(signals: Signals)
    ensures var first := Next(signals, State([WAITING, WAITING], []), SetStatus(0, Accepted));
      var st := Next(signals, first, SetStatus(1, Accepted));
      Held(st, "h", "r", 0) == 2
  {
    hide BidWeight;
    var first := Next(signals, State([WAITING, WAITING], []), SetStatus(0, Accepted));
    var st := Next(signals, first, SetStatus(1, Accepted));
    assert st.bids == [TAKEN, TAKEN] && st.blocks == [];
    WaitingWeighsNothing(0);
    BidLoadAppend([], TAKEN, "h", "r", 0);
    BidLoadAppend([TAKEN], TAKEN, "h", "r", 0);
    assert [] + [TAKEN] == [TAKEN] && [TAKEN] + [TAKEN] == [TAKEN, TAKEN];
  }

  /** PENDING bids are not counted, so two bids placed under the guard can both be accepted later. */
  lemma LateAcceptOversells(signals: Signals)
    requires CapacityOf(signals, "h", "r") == Some(1)
    ensures var steps := [Place(WAITING), Place(WAITING), SetStatus(0, Accepted), SetStatus(1, Accepted)];
      Held(Run(signals, State([], []), steps), "h", "r", 0) == 2
  {
    hide Next, Run, Held;
    RunOfFour(signals, State([], []), Place(WAITING), Place(WAITING), SetStatus(0, Accepted), SetStatus(1, Accepted));
    TwoPlaced(signals);
    BothAccepted(signals);
  }

  // ----- what the tables say, in their own terms -----

  /** Units a dated stay takes on a night: at least one, and the stored count when it is higher. */
  function StayUnits(b: Bid, hotelId: string, roomId: string, night: Night): nat {
    if b.hotelId == hotelId && b.roomId == roomId && b.checkIn.Some? && b.checkOut.Some?
       && b.checkIn.value <= night && night < b.checkOut.value
    then (match b.numRooms case None => 1 case Some(n) => if n > 1 then n else 1)
    else 0
  }

  /**
   The load, row by row: nothing in empty tables; a bid that is ACCEPTED, COUNTER, CONFIRMED or CHECKED_IN
   takes its units on every night from check-in to the night before check-out, and in any other status
   none; a block takes one unit on each of its nights.
   */
  lemma LoadRowByRow(st: State, b: Bid, k: Block, hotelId: string, roomId: string, night: Night)
    ensures Held(State([], []), hotelId, roomId, night) == 0
    ensures Held(State(st.bids + [b], st.blocks), hotelId, roomId, night)
         == Held(st, hotelId, roomId, night)
            + if b.status in {Accepted, Counter, Confirmed, CheckedIn} then StayUnits(b, hotelId, roomId, night) else 0
    ensures Held(State(st.bids, st.blocks + [k]), hotelId, roomId, night)
         == Held(st, hotelId, roomId, night)
            + if k.hotelId == hotelId && k.roomId == roomId && k.fromDate <= night && night < k.toDate then 1 else 0
  {
    BidLoadAppend(st.bids, b, hotelId, roomId, night);
    BlockLoadAppend(st.blocks, k, hotelId, roomId, night);
    WeightWrittenOut(b, hotelId, roomId, night);
    hide BidWeight, StayUnits;
  }

  lemma WeightWrittenOut(b: Bid, hotelId: string, roomId: string, night: Night)
    ensures BidWeight(b, hotelId, roomId, night)
         == if b.status in {Accepted, Counter, Confirmed, CheckedIn} then StayUnits(b, hotelId, roomId, night) else 0
  {
  }

  /**
   A stay holds the same units from ACCEPTED or COUNTER through CONFIRMED to CHECKED_IN; PENDING holds none;
   CHECKED_OUT, REJECTED, EXPIRED and CANCELLED give exactly those units back. Nothing else moves.
   */
  lemma LifecycleOfAStay(
      signals: Signals, st: State, i: nat, s: Status, hotelId: string, roomId: string, night: Night)
    requires i < |st.bids|
    ensures var b := st.bids[i];
      var units := StayUnits(b, hotelId, roomId, night);
      var before := Held(st, hotelId, roomId, night);
      var after := Held(Next(signals, st, SetStatus(i, s)), hotelId, roomId, night);
      var free := {Pending, CheckedOut, Rejected, Expired, Cancelled};
      var held := {Accepted, Counter, Confirmed, CheckedIn};
      && (b.status in held && s in held ==> after == before)
      && (b.status in free && s in free ==> after == before)
      && (b.status in free && s in held ==> after == before + units)
      && (b.status in held && s in free ==> after == before - units)
  {
    StepMoves(signals, st, SetStatus(i, s), hotelId, roomId, night);
    hide Next, Held;
  }

  /** How often a unit is sold, row by row, under the same statuses. */
  lemma SalesRowByRow(
      bids: seq<Bid>, blocks: seq<Block>, b: Bid, k: Block, hotelId: string, unitId: string, night: Night)
    ensures BidSales([], hotelId, unitId, night) == 0 && BlockSales([], hotelId, unitId, night) == 0
    ensures BidSales(bids + [b], hotelId, unitId, night)
         == BidSales(bids, hotelId, unitId, night)
            + if b.unitId == Some(unitId) && b.status in {Accepted, Counter, Confirmed, CheckedIn}
              then StayUnits(b, hotelId, b.roomId, night) else 0
    ensures BlockSales(blocks + [k], hotelId, unitId, night)
         == BlockSales(blocks, hotelId, unitId, night)
            + if k.unitId == Some(unitId) && k.hotelId == hotelId && k.fromDate <= night && night < k.toDate
              then 1 else 0
  {
    assert (bids + [b])[..|bids|] == bids && (blocks + [k])[..|blocks|] == blocks;
  }

  /**
   A table whose only row is one dated bid: the units it takes on some night of the query are reported
   as occupied and missing from the free ones.
   */
  lemma OnlyBidReported(b: Bid, units: nat, quantity: QuantityAnswer, from: Night, to: Night)
    requires b.checkIn.Some? && b.checkOut.Some? && b.hotelId != "" && b.roomId != "" && from < to && units > 0
    ensures var rooms := match b.numRooms case None => 1 case Some(n) => if n > 1 then n else 1;
      var shared := Max(b.checkIn.value, from) < Min(b.checkOut.value, to);
      var taken := if b.status in {Accepted, Counter, Confirmed, CheckedIn} && shared then rooms else 0;
      UnitsFree([b], [], Units(units), quantity, b.hotelId, b.roomId, from, to)
      == Some(Availability(units, taken, if taken < units then units - taken else 0))
  {
    var (hotelId, roomId) := (b.hotelId, b.roomId);
    PeakOfTables([b], [], hotelId, roomId, from, to);
    forall n ensures BidLoad([b], hotelId, roomId, n) == BidWeight(b, hotelId, roomId, n) {
      BidLoadAppend([], b, hotelId, roomId, n);
      assert [] + [b] == [b];
    }
    hide BidLoad, Peak, Occupations;
    var first := Max(b.checkIn.value, from);
    assert BidLoad([b], hotelId, roomId, first) == BidWeight(b, hotelId, roomId, first);
  }

  /** Active units count when there are any; else a positive room quantity; else there is no capacity signal. */
  lemma CapacitySignal(units: UnitRows, quantity: QuantityAnswer)
    ensures units.Units? && units.count >= 1 ==> Capacity(units, quantity) == Some(units.count)
    ensures !(units.Units? && units.count >= 1) && quantity.Quantity? && quantity.value >= 1
            ==> Capacity(units, quantity) == Some(quantity.value)
    ensures !(units.Units? && units.count >= 1) && !(quantity.Quantity? && quantity.value >= 1)
            ==> Capacity(units, quantity) == None
  {
  }

  /** There is no answer exactly without a hotel, a room, a night or a capacity; else capacity bounds the free units. */
  lemma NoAnswerExactly(
      bids: seq<Bid>, blocks: seq<Block>, units: UnitRows, quantity: QuantityAnswer,
      hotelId: string, roomId: string, from: Night, to: Night)
    ensures var r := UnitsFree(bids, blocks, units, quantity, hotelId, roomId, from, to);
      && (r == None <==> hotelId == "" || roomId == "" || to <= from || Capacity(units, quantity) == None)
      && (r.Some? ==> 0 <= r.value.free <= r.value.capacity && Some(r.value.capacity) == Capacity(units, quantity))
  {
  }

  /** Outside the guard a step counts for exactly what it adds to the night. */
  lemma UnguardedExactly(signals: Signals, st: State, step: Step, hotelId: string, roomId: string, night: Night)
    ensures var more := Held(Next(signals, st, step), hotelId, roomId, night) - Held(st, hotelId, roomId, night);
      var guarded := step.Place?
                     || (step.SetStatus? && step.index < |st.bids| && Admits(signals, st, st.bids[step.index]));
      Unguarded(signals, st, step, hotelId, roomId, night) == if guarded || more < 0 then 0 else more
  {
    hide Held, Next, Admits, BidWeight, BlockWeight;
    StepMoves(signals, st, step, hotelId, roomId, night);
  }

  /** A dated bid wants exactly the nights on which it would take units. */
  lemma WantsItsNights(b: Bid, hotelId: string, roomId: string, night: Night)
    ensures Wants(b, hotelId, roomId, night) <==> StayUnits(b, hotelId, roomId, night) > 0
  {
  }

  /** Runs of placements and removed blocks have nothing unguarded. */
  lemma {:induction false} GuardedRunsAddNothing(
      signals: Signals, st: State, steps: seq<Step>, hotelId: string, roomId: string, night: Night)
    requires forall s :: s in steps ==> s.Place? || s.Remove?
    ensures TotalUnguarded(signals, st, steps, hotelId, roomId, night) == 0
    decreases steps
  {
    hide Next, Admits;
    if steps != [] { GuardedRunsAddNothing(signals, Next(signals, st, steps[0]), steps[1..], hotelId, roomId, night); }
  }
}
