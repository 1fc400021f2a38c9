/** The three-hour pause before another bid on the same hotel. */
module BidCooldown {
  import opened Base
  import opened BidExpiry
  import opened Text

  const COOLDOWN_MS := 3 * HOUR

  datatype Reason = PendingReview | CounterOffer | AcceptedUnpaid | AcceptedPaid

  datatype Cooldown = Inactive | Active(reason: Reason, retryAfterMs: int, bid: Bid)

  function Find(bids: seq<Bid>, status: string): Option<Bid> {
    if bids == [] then None else if bids[0].status == status then Some(bids[0]) else Find(bids[1..], status)
  }

  /** Accepted before counter before pending, among the active bids. */
  function Target(active: seq<Bid>): Option<Bid> {
    if Find(active, "ACCEPTED").Some? then Find(active, "ACCEPTED")
    else if Find(active, "COUNTER").Some? then Find(active, "COUNTER")
    else Find(active, "PENDING")
  }

  function ComputeBidCooldown(bids: seq<Bid>, now: int): Cooldown {
    var active := FilterActiveBids(bids, now);
    match Target(active)
    case None => Inactive
    case Some(b) =>
      var base := b.updatedAt.Or(b.acceptedAt).Or(b.createdAt).Or(At(now)).Read();
      if base.NaN? || base.ms + COOLDOWN_MS - now <= 0 then Inactive
      else
        var reason :=
          if b.status == "ACCEPTED" then (if IsBidPaid(b) then AcceptedPaid else AcceptedUnpaid)
          else if b.status == "COUNTER" then CounterOffer else PendingReview;
        Active(reason, base.ms + COOLDOWN_MS - now, b)
  }

  lemma FindFinds(bids: seq<Bid>, status: string)
    ensures Find(bids, status).Some? ==> Find(bids, status).value in bids && Find(bids, status).value.status == status
  {
  }

  lemma StatusesDiffer()
    ensures "ACCEPTED" != "COUNTER" && "ACCEPTED" != "PENDING" && "COUNTER" != "PENDING"
  {
    assert "ACCEPTED"[0] == 'A' && "COUNTER"[0] == 'C' && "PENDING"[0] == 'P';
  }

  lemma ActiveOne(b: Bid, now: int)
    ensures FilterActiveBids([b], now) == if IsBidExpired(b, now) then [] else [b]
  {
    hide IsBidExpired;
    FilterOne(b, x => !IsBidExpired(x, now));
  }

  lemma TargetOfOne(b: Bid)
    requires b.status == "ACCEPTED" || b.status == "COUNTER" || b.status == "PENDING"
    ensures Target([b]) == Some(b)
  {
    StatusesDiffer();
    FindOne(b, "ACCEPTED");
    FindOne(b, "COUNTER");
    FindOne(b, "PENDING");
  }

  lemma FindOne(b: Bid, status: string)
    ensures Find([b], status) == if b.status == status then Some(b) else None
  {
    assert [b][1..] == [];
    assert Find([b][1..], status) == None;
  }

  /** Whatever bid causes the pause would cause the same pause alone. */
  lemma CauseAlone(bids: seq<Bid>, now: int)
    requires ComputeBidCooldown(bids, now).Active?
    ensures var c := ComputeBidCooldown(bids, now);
      c.bid in bids && ComputeBidCooldown([c.bid], now) == c
  {
    hide IsBidExpired, IsBidPaid;
    var active := FilterActiveBids(bids, now);
    FindFinds(active, "ACCEPTED");
    FindFinds(active, "COUNTER");
    FindFinds(active, "PENDING");
    var b := Target(active).value;
    TargetOfOne(b);
    ActiveOne(b, now);
  }

  /** One bid: once its pause is over it never comes back. */
  lemma SingleReleaseIsFinal(b: Bid, t1: int, t2: int)
    requires t1 <= t2 && ComputeBidCooldown([b], t1).Inactive?
    ensures ComputeBidCooldown([b], t2).Inactive?
  {
    hide IsBidExpired, IsBidPaid;
    ExpiryIsOneWay(b, t1, t2);
    ActiveOne(b, t1);
    ActiveOne(b, t2);
  }

  // ----- when a release is final -----

  /** The order in which bids are considered; None: the status never causes a pause. */
  function Priority(b: Bid): Option<nat> {
    if b.status == "ACCEPTED" then Some(2) else if b.status == "COUNTER" then Some(1)
    else if b.status == "PENDING" then Some(0) else None
  }

  /** Bid `j` is considered before bid `i`: higher priority, or the same and listed earlier. */
  predicate Ahead(bids: seq<Bid>, j: int, i: int)
    requires 0 <= i < |bids| && 0 <= j < |bids|
  {
    && Priority(bids[i]).Some? && Priority(bids[j]).Some?
    && (Priority(bids[j]).value > Priority(bids[i]).value
        || (Priority(bids[j]) == Priority(bids[i]) && j < i))
  }

  function Earlier(a: Deadline, b: Deadline): Deadline {
    match (a, b)
    case (Always, _) => Always
    case (_, Always) => Always
    case (Never, _) => b
    case (_, Never) => a
    case (Past(x), Past(y)) => Past(Min(x, y))
  }

  /** When the pause a bid causes on its own is over: at its expiry or three hours after its latest activity. */
  function PauseOver(b: Bid): Deadline {
    var base := b.updatedAt.Or(b.acceptedAt).Or(b.createdAt);
    if Priority(b).None? || base.Unreadable? then Always
    else Earlier(DeadlineOf(b), if base.Absent? then Never else Past(base.ms + COOLDOWN_MS - 1))
  }

  /** Whenever `d` has been reached, `p` has been. */
  predicate Outlasts(d: Deadline, p: Deadline) {
    d.Never? || p.Always? || (d.Past? && p.Past? && d.ms >= p.ms)
  }

  lemma FindSkips(b: Bid, bids: seq<Bid>, now: int, status: string)
    ensures Find(FilterActiveBids([b] + bids, now), status)
         == if !IsBidExpired(b, now) && b.status == status then Some(b) else Find(FilterActiveBids(bids, now), status)
  {
    hide IsBidExpired;
    var rest := FilterActiveBids(bids, now);
    assert ([b] + bids)[1..] == bids;
    assert ([b] + rest)[1..] == rest;
    assert [] + rest == rest;
  }

  /** Bid `i` is the first unexpired one of its status. */
  ghost predicate FirstOf(bids: seq<Bid>, now: int, status: string, i: int) {
    && 0 <= i < |bids| && bids[i].status == status && !IsBidExpired(bids[i], now)
    && forall j :: 0 <= j < i && bids[j].status == status ==> IsBidExpired(bids[j], now)
  }

  lemma {:induction false} FindFirst(bids: seq<Bid>, now: int, status: string) returns (i: int)
    ensures match Find(FilterActiveBids(bids, now), status)
            case Some(b) => FirstOf(bids, now, status, i) && bids[i] == b
            case None => forall j :: 0 <= j < |bids| && bids[j].status == status ==> IsBidExpired(bids[j], now)
  {
    hide IsBidExpired, FilterActiveBids;
    i := 0;
    if bids == [] {
      NothingActive(now);
    } else {
      assert bids == [bids[0]] + bids[1..];
      FindSkips(bids[0], bids[1..], now, status);
      if IsBidExpired(bids[0], now) || bids[0].status != status {
        i := FindFirst(bids[1..], now, status);
        i := i + 1;
      }
    }
  }

  lemma NothingActive(now: int)
    ensures FilterActiveBids([], now) == []
  {
  }

  /** The bid that decides the pause: unexpired, with everything ahead of it expired. */
  ghost predicate Decides(bids: seq<Bid>, now: int, i: int) {
    && 0 <= i < |bids| && Priority(bids[i]).Some? && !IsBidExpired(bids[i], now)
    && forall j :: 0 <= j < |bids| && Ahead(bids, j, i) ==> IsBidExpired(bids[j], now)
  }

  lemma TargetDecides(bids: seq<Bid>, now: int) returns (i: int)
    ensures match Target(FilterActiveBids(bids, now))
            case Some(b) => Decides(bids, now, i) && bids[i] == b
            case None => forall j :: 0 <= j < |bids| && Priority(bids[j]).Some? ==> IsBidExpired(bids[j], now)
  {
    hide IsBidExpired, FilterActiveBids;
    StatusesDiffer();
    var active := FilterActiveBids(bids, now);
    var accepted := FindFirst(bids, now, "ACCEPTED");
    var counter := FindFirst(bids, now, "COUNTER");
    var pending := FindFirst(bids, now, "PENDING");
    i := if Find(active, "ACCEPTED").Some? then accepted
         else if Find(active, "COUNTER").Some? then counter else pending;
  }

  /** The pause of a bid on its own is a threshold in time. */
  lemma PauseIsThreshold(b: Bid, now: int)
    ensures ComputeBidCooldown([b], now).Inactive? <==> Reached(PauseOver(b), now)
  {
    hide IsBidExpired, IsBidPaid, DeadlineOf;
    ExpiryIsThreshold(b);
    ActiveOne(b, now);
    StatusesDiffer();
    if Priority(b).Some? {
      TargetOfOne(b);
    } else {
      FindOne(b, "ACCEPTED");
      FindOne(b, "COUNTER");
      FindOne(b, "PENDING");
    }
  }

  /** The list is paused exactly when the bid that decides is paused on its own. */
  lemma DecidingBid(bids: seq<Bid>, now: int, i: int)
    requires Decides(bids, now, i)
    ensures ComputeBidCooldown(bids, now).Inactive? <==> Reached(PauseOver(bids[i]), now)
  {
    hide IsBidExpired, IsBidPaid, FilterActiveBids, PauseOver;
    var k := TargetDecides(bids, now);
    assert k == i by {
      assert Ahead(bids, k, i) || Ahead(bids, i, k) || k == i;
    }
    TargetOfOne(bids[i]);
    ActiveOne(bids[i], now);
    PauseIsThreshold(bids[i], now);
  }

  lemma ActiveHasDecider(bids: seq<Bid>, now: int) returns (i: int)
    requires ComputeBidCooldown(bids, now).Active?
    ensures Decides(bids, now, i) && !Reached(PauseOver(bids[i]), now)
  {
    hide IsBidExpired, IsBidPaid, FilterActiveBids, PauseOver;
    i := TargetDecides(bids, now);
    DecidingBid(bids, now, i);
  }

  /** An instant at or after `from` by which every listed bid with a finite deadline is expired. */
  lemma {:induction false} AllGone(bids: seq<Bid>, from: int) returns (t: int)
    ensures t >= from
    ensures forall b :: b in bids && !DeadlineOf(b).Never? ==> Reached(DeadlineOf(b), t)
  {
    hide DeadlineOf;
    t := from;
    if bids != [] {
      t := AllGone(bids[1..], from);
      if DeadlineOf(bids[0]).Past? { t := Max(t, DeadlineOf(bids[0]).ms + 1); }
    }
  }

  /** Some bid considered before bid `i` stays unexpired for as long as the pause of bid `i` runs. */
  predicate StaysHidden(bids: seq<Bid>, i: int)
    requires 0 <= i < |bids|
  {
    exists j :: 0 <= j < |bids| && Ahead(bids, j, i) && Outlasts(DeadlineOf(bids[j]), PauseOver(bids[i]))
  }

  /** A paused bid that is not hidden comes to decide while its own pause still runs. */
  lemma PauseSurfaces(bids: seq<Bid>, t1: int, i: int) returns (t: int)
    requires 0 <= i < |bids| && !Reached(PauseOver(bids[i]), t1) && !StaysHidden(bids, i)
    ensures t >= t1 && ComputeBidCooldown(bids, t).Active?
  {
    hide IsBidExpired, ComputeBidCooldown;
    forall j | 0 <= j < |bids| ensures forall now :: IsBidExpired(bids[j], now) <==> Reached(DeadlineOf(bids[j]), now) {
      ExpiryIsThreshold(bids[j]);
    }
    if PauseOver(bids[i]).Never? {
      t := AllGone(bids, t1);
    } else {
      t := PauseOver(bids[i]).ms;
    }
    hide DeadlineOf;
    DecidingBid(bids, t, i);
  }

  /** The bid behind a pause running at `t` was paused before and is not hidden. */
  lemma PauseWasVisible(bids: seq<Bid>, t1: int, t: int) returns (i: int)
    requires t1 <= t && ComputeBidCooldown(bids, t).Active?
    ensures 0 <= i < |bids| && !Reached(PauseOver(bids[i]), t1) && !StaysHidden(bids, i)
  {
    hide IsBidExpired, ComputeBidCooldown, DeadlineOf, PauseOver;
    i := ActiveHasDecider(bids, t);
    forall j | 0 <= j < |bids| && Ahead(bids, j, i) ensures !Outlasts(DeadlineOf(bids[j]), PauseOver(bids[i])) {
      ExpiryIsThreshold(bids[j]);
    }
  }

  /** No pause ever runs from `t1` on exactly when every bid whose own pause still runs at `t1` stays hidden. */
  lemma ReleaseFinalExactly(bids: seq<Bid>, t1: int)
    ensures (forall t :: t >= t1 ==> ComputeBidCooldown(bids, t).Inactive?)
       <==> (forall i :: 0 <= i < |bids| && !Reached(PauseOver(bids[i]), t1) ==> StaysHidden(bids, i))
  {
    hide ComputeBidCooldown, StaysHidden, PauseOver;
    if i :| 0 <= i < |bids| && !Reached(PauseOver(bids[i]), t1) && !StaysHidden(bids, i) {
      var t := PauseSurfaces(bids, t1, i);
    }
    if t :| t >= t1 && ComputeBidCooldown(bids, t).Active? {
      var i := PauseWasVisible(bids, t1, t);
    }
  }

  const STALE := Bid("a", "ACCEPTED", At(0), Absent, Absent, Absent, At(12 * HOUR), "")
  const RECENT := Bid("b", "PENDING", At(12 * HOUR), Absent, Absent, Absent, At(20 * HOUR), "")

  lemma StaleAndRecent(now: int)
    ensures IsBidExpired(STALE, now) <==> now > 12 * HOUR
    ensures IsBidExpired(RECENT, now) <==> now > 20 * HOUR
  {
    hide IsPlaceFlow;
    assert Upper("ACCEPTED")[0] == 'A' && Upper("PENDING")[0] == 'P';
    assert !IsBidPaid(STALE) && !IsBidPaid(RECENT);
  }

  /** A list can go from released back to paused: an old accepted bid hides a newer pending one until it expires. */
  lemma ReleaseCanReturn()
    ensures ComputeBidCooldown([STALE, RECENT], 12 * HOUR).Inactive?
    ensures ComputeBidCooldown([STALE, RECENT], 12 * HOUR + 1).Active?
  {
    hide IsBidExpired, IsBidPaid;
    forall now | now == 12 * HOUR || now == 12 * HOUR + 1
      ensures FilterActiveBids([STALE, RECENT], now) == if now == 12 * HOUR then [STALE, RECENT] else [RECENT]
    {
      StaleAndRecent(now);
      assert [STALE] + [RECENT] == [STALE, RECENT];
      FilterOne(STALE, b => !IsBidExpired(b, now));
      FilterOne(RECENT, b => !IsBidExpired(b, now));
      FilterConcat([STALE], [RECENT], b => !IsBidExpired(b, now));
    }
    TargetOfOne(RECENT);
  }

  // ----- the report -----

  /** The time a pause counts from: updatedAt, else acceptedAt, else createdAt, else now. */
  function LatestActivity(b: Bid, now: int): Stamp {
    if !b.updatedAt.Absent? then b.updatedAt
    else if !b.acceptedAt.Absent? then b.acceptedAt
    else if !b.createdAt.Absent? then b.createdAt
    else At(now)
  }

  /**
   What is reported: an unexpired bid of the list, an ACCEPTED one if there is any, else a COUNTER one, else
   a PENDING one; the time left of three hours; and a reason that tells the three states, and paid from
   unpaid, apart.
   */
  lemma PauseReport(bids: seq<Bid>, now: int)
    requires ComputeBidCooldown(bids, now).Active?
    ensures var c := ComputeBidCooldown(bids, now);
      var paid := Includes(c.bid.message, "Razorpay:") || Includes(c.bid.message, "razorpay_payment_id");
      && c.bid in bids && !IsBidExpired(c.bid, now) && c.bid.status in ["ACCEPTED", "COUNTER", "PENDING"]
      && (forall b :: b in bids && !IsBidExpired(b, now) && b.status == "ACCEPTED" ==> c.bid.status == "ACCEPTED")
      && (forall b :: b in bids && !IsBidExpired(b, now) && b.status == "COUNTER" ==> c.bid.status != "PENDING")
      && LatestActivity(c.bid, now).At? && c.retryAfterMs == LatestActivity(c.bid, now).ms + 10800000 - now
      && c.retryAfterMs > 0
      && (c.reason == AcceptedPaid <==> c.bid.status == "ACCEPTED" && paid)
      && (c.reason == AcceptedUnpaid <==> c.bid.status == "ACCEPTED" && !paid)
      && (c.reason == CounterOffer <==> c.bid.status == "COUNTER")
      && (c.reason == PendingReview <==> c.bid.status == "PENDING")
  {
    hide IsBidExpired, Includes;
    StatusesDiffer();
    var i := TargetDecides(bids, now);
    forall b | b in bids && !IsBidExpired(b, now)
      ensures b.status == "ACCEPTED" ==> bids[i].status == "ACCEPTED"
      ensures b.status == "COUNTER" ==> bids[i].status != "PENDING"
    {
      var j :| 0 <= j < |bids| && bids[j] == b;
      assert Ahead(bids, j, i) ==> IsBidExpired(bids[j], now);
    }
    hide FilterActiveBids, IsBidPaid;
  }

  /** A single live bid with a readable time pauses exactly until three hours after it. */
  lemma OneBidPauses(b: Bid, now: int)
    requires b.status in ["ACCEPTED", "COUNTER", "PENDING"] && !IsBidExpired(b, now)
    ensures ComputeBidCooldown([b], now).Active?
       <==> LatestActivity(b, now).At? && now < LatestActivity(b, now).ms + 10800000
  {
    hide IsBidExpired, IsBidPaid;
    ActiveOne(b, now);
    TargetOfOne(b);
  }
}
