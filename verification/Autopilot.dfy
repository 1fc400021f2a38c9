/** Bidder tiers from past bids, and the automated decision on a new bid. */
module Autopilot {
  import opened Base

  datatype Tier = Premium | Strong | Normal | Cautious | Lowball | New

  datatype Millis = Finite(ms: int) | Infinite

  datatype Mode = Manual | Hybrid | Auto

  const AUTO_COUNTER_BAND_MIN := 0.85
  const AUTO_COUNTER_WINDOW_MS := 60 * 60 * 1000

  /** TIER_META's autoAcceptMs. */
  function AutoAcceptMs(t: Tier): Millis {
    match t
    case Premium => Finite(30000)
    case Strong => Finite(180000)
    case Normal => Finite(480000)
    case Cautious => Finite(1200000)
    case Lowball => Infinite
    case New => Finite(480000)
  }

  // ----- bidder score -----

  /** A past bid; `preferred` is the price in its message token. Zero prices count as missing. */
  datatype PastBid = PastBid(
      amount: Option<real>, preferred: Option<real>, roomFloor: Option<real>, floor: Option<real>)

  function FloorOf(b: PastBid): real {
    if b.roomFloor.GetOr(0.0) != 0.0 then b.roomFloor.value else b.floor.GetOr(0.0)
  }

  /** bid / floor; None when the bid does not count. */
  function Ratio(b: PastBid): Option<real> {
    var floor := FloorOf(b);
    var bid := if b.preferred.Some? then b.preferred.value else b.amount.GetOr(0.0);
    if floor <= 0.0 || bid <= 0.0 then None else Some(bid / floor)
  }

  function Ratios(bids: seq<PastBid>): seq<real> {
    if bids == [] then []
    else (if Ratio(bids[0]).Some? then [Ratio(bids[0]).value] else []) + Ratios(bids[1..])
  }

  function Sum(rs: seq<real>): real { if rs == [] then 0.0 else rs[0] + Sum(rs[1..]) }

  function PickTier(avg: real): Tier {
    if avg >= 0.95 then Premium
    else if avg >= 0.88 then Strong
    else if avg >= 0.82 then Normal
    else if avg >= 0.75 then Cautious
    else Lowball
  }

  datatype Score = Score(tier: Tier, score: real, sampleSize: nat)

  /** The ten most recent bids, newest first: the ones that are scored. */
  function Recent(bids: seq<PastBid>): seq<PastBid> { if |bids| <= 10 then bids else bids[..10] }

  function ComputeBidderScore(bids: seq<PastBid>): Score {
    var rs := Ratios(Recent(bids));
    if rs == [] then Score(New, 0.0, 0)
    else
      var avg := Sum(rs) / |rs| as real;
      Score(PickTier(avg), avg, |rs|)
  }

  // ----- the decision -----

  function ResolveAutoAcceptMs(t: Tier, baseMs: Millis, mode: Mode): Millis {
    if baseMs.Infinite? then Infinite
    else
      match mode
      case Manual => Infinite
      case Hybrid => if t.Premium? || t.Strong? then baseMs else Infinite
      case Auto => baseMs
  }

  /** None: occupancy unknown. */
  function CounterBandForVacancy(vacancy: Option<real>): real {
    match vacancy
    case None => AUTO_COUNTER_BAND_MIN
    case Some(v) => if v > 0.60 then 0.78 else if v < 0.15 then 1.0 else AUTO_COUNTER_BAND_MIN
  }

  datatype Action = Accept(autoAcceptMs: int) | CounterAt(amount: real, windowMs: int) | ManualReview

  function ResolveAutoAction(
      intent: real, floor: real, t: Tier, baseMs: Millis, mode: Mode, band: Option<real>): Action
  {
    if mode.Manual? then ManualReview
    else if !(floor > 0.0) || !(intent > 0.0) then ManualReview
    else
      var ratio := intent / floor;
      var ms := ResolveAutoAcceptMs(t, baseMs, mode);
      if ratio >= 1.0 then (if ms.Finite? then Accept(ms.ms) else ManualReview)
      else if ratio >= band.GetOr(AUTO_COUNTER_BAND_MIN) then
        if ms.Finite? then CounterAt(floor, AUTO_COUNTER_WINDOW_MS) else ManualReview
      else ManualReview
  }

  /** The decision as it is made for a placed bid: tier delays from the table, band from vacancy. */
  function Decide(intent: real, floor: real, t: Tier, mode: Mode, vacancy: Option<real>): Action {
    ResolveAutoAction(intent, floor, t, AutoAcceptMs(t), mode, Some(CounterBandForVacancy(vacancy)))
  }

  // ----- orders -----

  function ActionRank(a: Action): nat { match a case ManualReview => 0 case CounterAt(_, _) => 1 case Accept(_) => 2 }

  function ModeRank(m: Mode): nat { match m case Manual => 0 case Hybrid => 1 case Auto => 2 }

  /** A newcomer is treated like a normal bidder. */
  function TierRank(t: Tier): nat {
    match t case Lowball => 0 case Cautious => 1 case Normal => 2 case New => 2 case Strong => 3 case Premium => 4
  }

  /** The tier and mode together allow automation. */
  predicate Eligible(t: Tier, mode: Mode) {
    !mode.Manual? && !t.Lowball? && (mode.Auto? || TierRank(t) >= 3)
  }

  lemma RatioAgainst(intent: real, floor: real, band: real)
    requires floor > 0.0
    ensures intent / floor >= band <==> intent >= band * floor
  {
    QuotientTimes(intent, floor);
    Cancel(band, intent / floor, floor);
    Cancel(intent / floor, band, floor);
  }

  /** Accept at or above the floor, counter between band and floor, manual otherwise; only when eligible. */
  lemma DecideExact(intent: real, floor: real, t: Tier, mode: Mode, vacancy: Option<real>)
    ensures var a := Decide(intent, floor, t, mode, vacancy);
      var live := Eligible(t, mode) && floor > 0.0 && intent > 0.0;
      && (a.Accept? <==> live && intent >= floor)
      && (a.CounterAt? <==> live && CounterBandForVacancy(vacancy) * floor <= intent < floor)
      && (a.Accept? ==> AutoAcceptMs(t) == Finite(a.autoAcceptMs))
  {
    if floor > 0.0 {
      RatioAgainst(intent, floor, 1.0);
      RatioAgainst(intent, floor, CounterBandForVacancy(vacancy));
    }
  }

  lemma BandFalls(v: real, w: real, floor: real)
    requires v <= w && floor > 0.0
    ensures CounterBandForVacancy(Some(w)) * floor <= CounterBandForVacancy(Some(v)) * floor
  {
    assert CounterBandForVacancy(Some(w)) <= CounterBandForVacancy(Some(v));
  }

  /** Raising the offer, the vacancy, the mode or the tier never makes the decision less automatic. */
  lemma BetterNeverDrops(i: real, j: real, floor: real, t: Tier, u: Tier, m: Mode, n: Mode, v: real, w: real)
    requires i <= j && TierRank(t) <= TierRank(u) && ModeRank(m) <= ModeRank(n) && v <= w
    ensures ActionRank(Decide(i, floor, t, m, Some(v))) <= ActionRank(Decide(j, floor, u, n, Some(w)))
  {
    hide Decide, CounterBandForVacancy;
    DecideExact(i, floor, t, m, Some(v));
    DecideExact(j, floor, u, n, Some(w));
    if floor > 0.0 { BandFalls(v, w, floor); }
  }

  /** A counter is always exactly the floor, above the guest's offer, for one hour. */
  lemma CounterIsFloor(intent: real, floor: real, t: Tier, baseMs: Millis, mode: Mode, band: Option<real>)
    ensures var a := ResolveAutoAction(intent, floor, t, baseMs, mode, band);
      a.CounterAt? ==> a.amount == floor && a.amount > intent > 0.0 && a.windowMs == AUTO_COUNTER_WINDOW_MS
  {
    if floor > 0.0 { RatioAgainst(intent, floor, 1.0); }
  }

  /** Nothing under 0.78 of the floor is ever automated; on a nearly full night nothing under the floor is. */
  lemma DeepLowballsStayManual(intent: real, floor: real, t: Tier, mode: Mode, vacancy: Option<real>)
    requires !Decide(intent, floor, t, mode, vacancy).ManualReview?
    ensures intent >= 0.78 * floor
    ensures vacancy.Some? && vacancy.value < 0.15 ==> intent >= floor
  {
    DecideExact(intent, floor, t, mode, vacancy);
    assert CounterBandForVacancy(vacancy) * floor >= 0.78 * floor;
  }

  // ----- past bids -----

  /** The same bids count, and each counted ratio is at least as high. */
  ghost predicate RatiosRaised(a: seq<PastBid>, b: seq<PastBid>) {
    |a| == |b| && forall i :: 0 <= i < |a| ==>
      (Ratio(a[i]).Some? <==> Ratio(b[i]).Some?) && (Ratio(a[i]).Some? ==> Ratio(a[i]).value <= Ratio(b[i]).value)
  }

  lemma {:induction false} SumRaised(a: seq<PastBid>, b: seq<PastBid>)
    requires RatiosRaised(a, b)
    ensures |Ratios(a)| == |Ratios(b)| && Sum(Ratios(a)) <= Sum(Ratios(b))
  {
    hide Ratio;
    if a != [] {
      SumRaised(a[1..], b[1..]);
      SumCons(a);
      SumCons(b);
    }
  }

  lemma SumCons(a: seq<PastBid>)
    requires a != []
    ensures Sum(Ratios(a)) == Ratio(a[0]).GetOr(0.0) + Sum(Ratios(a[1..]))
    ensures |Ratios(a)| == (if Ratio(a[0]).Some? then 1 else 0) + |Ratios(a[1..])|
  {
    hide Ratio;
    if Ratio(a[0]).Some? {
      assert Ratios(a)[1..] == Ratios(a[1..]);
    } else {
      assert Ratios(a) == Ratios(a[1..]);
    }
  }

  /** Raising the ratios of bids that already count never lowers the tier, nor the decision on a new bid. */
  lemma BetterHistoryNeverDrops(
      a: seq<PastBid>, b: seq<PastBid>, intent: real, floor: real, mode: Mode, vacancy: Option<real>)
    requires RatiosRaised(a, b)
    ensures TierRank(ComputeBidderScore(a).tier) <= TierRank(ComputeBidderScore(b).tier)
    ensures ActionRank(Decide(intent, floor, ComputeBidderScore(a).tier, mode, vacancy))
         <= ActionRank(Decide(intent, floor, ComputeBidderScore(b).tier, mode, vacancy))
  {
    hide Decide, Ratio, CounterBandForVacancy;
    var (x, y) := (Recent(a), Recent(b));
    SumRaised(x, y);
    if Ratios(x) != [] {
      AverageRaised(Sum(Ratios(x)), Sum(Ratios(y)), |Ratios(x)| as real);
    }
    DecideExact(intent, floor, ComputeBidderScore(a).tier, mode, vacancy);
    DecideExact(intent, floor, ComputeBidderScore(b).tier, mode, vacancy);
  }

  lemma AverageRaised(s: real, t: real, n: real)
    requires s <= t && n > 0.0
    ensures s / n <= t / n
  {
    if s < t { QuotientOrder(t, s, n); }
  }

  // ----- one more bid -----

  /** The least average that keeps a bidder at the level of this tier. */
  function Least(t: Tier): real {
    match t
    case Premium => 0.95
    case Strong => 0.88
    case Normal => 0.82
    case New => 0.82
    case Cautious => 0.75
    case Lowball => 0.0
  }

  lemma TierReached(avg: real, t: Tier)
    requires avg >= 0.0
    ensures TierRank(PickTier(avg)) >= TierRank(t) <==> avg >= Least(t)
  {
  }

  lemma {:induction false} SumNonNegative(bids: seq<PastBid>)
    ensures Sum(Ratios(bids)) >= 0.0
  {
    if bids != [] {
      SumNonNegative(bids[1..]);
      SumCons(bids);
      RatioPositive(bids[0]);
    }
  }

  lemma RatioPositive(b: PastBid)
    ensures Ratio(b).GetOr(1.0) > 0.0
  {
    if Ratio(b).Some? {
      var bid := if b.preferred.Some? then b.preferred.value else b.amount.GetOr(0.0);
      QuotientTimes(bid, FloorOf(b));
      Cancel(0.0, bid / FloorOf(b), FloorOf(b));
    }
  }

  lemma ScoredTier(bids: seq<PastBid>, t: Tier)
    ensures var rs := Ratios(Recent(bids));
      TierRank(ComputeBidderScore(bids).tier) >= TierRank(t)
      <==> if rs == [] then TierRank(t) <= 2 else Sum(rs) >= Least(t) * |rs| as real
  {
    hide Ratios, Sum, PickTier, Least;
    var rs := Ratios(Recent(bids));
    if rs != [] {
      SumNonNegative(Recent(bids));
      RatioAgainst(Sum(rs), |rs| as real, Least(t));
      RatioAgainst(Sum(rs), |rs| as real, 0.0);
      TierReached(Sum(rs) / |rs| as real, t);
    }
  }

  /**
   A new bid keeps the level of the tier exactly when, with the nine most recent earlier bids (the
   tenth drops out), the counted ratios reach the tier's least average; when nothing counts, exactly
   when the level was at most a newcomer's.
   */
  lemma NewBidKeepsTierExactly(b: PastBid, past: seq<PastBid>)
    ensures var t := ComputeBidderScore(past).tier;
      var kept := Ratios(if |past| <= 9 then past else past[..9]);
      var n := |kept| + if Ratio(b).Some? then 1 else 0;
      TierRank(ComputeBidderScore([b] + past).tier) >= TierRank(t)
      <==> if n == 0 then TierRank(t) <= 2 else Ratio(b).GetOr(0.0) + Sum(kept) >= Least(t) * n as real
  {
    hide Ratio, Ratios, Sum, ComputeBidderScore, Least;
    var rest := if |past| <= 9 then past else past[..9];
    assert Recent([b] + past) == [b] + rest;
    assert ([b] + rest)[1..] == rest;
    SumCons([b] + rest);
    ScoredTier([b] + past, ComputeBidderScore(past).tier);
  }

  /** A first bid can lower the tier: a newcomer's single low bid makes a low-ball pattern. */
  lemma FirstBidCanDrop()
    ensures var low := PastBid(Some(50.0), None, None, Some(100.0));
      TierRank(ComputeBidderScore([low]).tier) < TierRank(ComputeBidderScore([]).tier)
  {
    var low := PastBid(Some(50.0), None, None, Some(100.0));
    assert [low][1..] == [];
    assert Ratio(low) == Some(0.5);
    assert Ratios([low]) == [0.5] && [0.5][1..] == [];
    assert Sum([0.5]) == 0.5;
  }

  // ----- the tables -----

  /** The tiers by average ratio. */
  lemma TiersByAverage(avg: real)
    ensures PickTier(avg) == Premium <==> avg >= 0.95
    ensures PickTier(avg) == Strong <==> 0.88 <= avg && avg < 0.95
    ensures PickTier(avg) == Normal <==> 0.82 <= avg && avg < 0.88
    ensures PickTier(avg) == Cautious <==> 0.75 <= avg && avg < 0.82
    ensures PickTier(avg) == Lowball <==> avg < 0.75
    ensures PickTier(avg) != New
  {
  }

  /**
   A past bid counts when it offers something against a floor: the room's own floor before the hotel's, the
   preferred price before the amount. It counts with the ratio of the two.
   */
  lemma PastBidCounts(b: PastBid)
    ensures
      var floor := if b.roomFloor.Some? && b.roomFloor.value != 0.0 then b.roomFloor
                         else if b.floor.Some? then b.floor else Some(0.0);
      var offer := if b.preferred.Some? then b.preferred else if b.amount.Some? then b.amount else Some(0.0);
      && (Ratio(b).Some? <==> floor.value > 0.0 && offer.value > 0.0)
      && (Ratio(b).Some? ==> Ratio(b).value * floor.value == offer.value)
  {
    if Ratio(b).Some? {
      var bid := if b.preferred.Some? then b.preferred.value else b.amount.GetOr(0.0);
      QuotientTimes(bid, FloorOf(b));
    }
  }

  /** The score is the average of the counted ratios of the first ten bids; a customer without any is new. */
  lemma ScoreIsAverage(bids: seq<PastBid>)
    ensures var s := ComputeBidderScore(bids);
      var rs := Ratios(if |bids| <= 10 then bids else bids[..10]);
      && s.sampleSize == |rs|
      && (rs == [] ==> s.tier == New && s.score == 0.0)
      && (rs != [] ==> s.tier == PickTier(s.score) && s.score * |rs| as real == Sum(rs))
  {
    hide Ratios, Sum, PickTier;
    var rs := Ratios(Recent(bids));
    if rs != [] { QuotientTimes(Sum(rs), |rs| as real); }
  }

  /** Ratios are listed in order, skipping bids that do not count. */
  lemma RatiosInOrder(b: PastBid, rest: seq<PastBid>)
    ensures Ratios([]) == [] && Sum([]) == 0.0
    ensures Ratios([b] + rest) == if Ratio(b).Some? then [Ratio(b).value] + Ratios(rest) else Ratios(rest)
    ensures forall r: real, rs: seq<real> :: Sum([r] + rs) == r + Sum(rs)
  {
    hide Ratio;
    assert ([b] + rest)[1..] == rest;
    forall r: real, rs: seq<real> ensures Sum([r] + rs) == r + Sum(rs) {
      assert ([r] + rs)[1..] == rs;
    }
  }

  /** The delay before an automatic answer, by tier, in milliseconds. */
  lemma Delays()
    ensures AutoAcceptMs(Premium) == Finite(30000) && AutoAcceptMs(Strong) == Finite(180000)
    ensures AutoAcceptMs(Normal) == Finite(480000) && AutoAcceptMs(New) == Finite(480000)
    ensures AutoAcceptMs(Cautious) == Finite(1200000) && AutoAcceptMs(Lowball) == Infinite
  {
  }

  /**
   The decision, written out. Automation needs mode auto and any tier but low-ball, or mode hybrid and one of
   the two best tiers. Then an offer at the floor is accepted after the tier's delay, one in the band below it
   countered at the floor for an hour, and the band starts at 0.85 of the floor, at 0.78 when more than 60
   percent of the rooms are empty, and nowhere below the floor when fewer than 15 percent are.
   */
  lemma DecisionTable(intent: real, floor: real, t: Tier, mode: Mode, vacancy: Option<real>)
    ensures var a := Decide(intent, floor, t, mode, vacancy);
      var automated := (mode == Auto && t != Lowball) || (mode == Hybrid && (t == Premium || t == Strong));
      var band := match vacancy
        case None => 0.85
        case Some(v) => if v > 0.60 then 0.78 else if v < 0.15 then 1.00 else 0.85;
      && (a.Accept? <==> automated && floor > 0.0 && intent >= floor)
      && (a.CounterAt? <==> automated && floor > 0.0 && intent > 0.0 && intent < floor && band * floor <= intent)
      && (a.Accept? ==> Finite(a.autoAcceptMs) == AutoAcceptMs(t))
      && (a.CounterAt? ==> a.amount == floor && a.windowMs == 3600000)
  {
    hide Decide;
    DecideExact(intent, floor, t, mode, vacancy);
    CounterIsFloor(intent, floor, t, AutoAcceptMs(t), mode, Some(CounterBandForVacancy(vacancy)));
    DecideIs(intent, floor, t, mode, vacancy);
  }

  lemma DecideIs(intent: real, floor: real, t: Tier, mode: Mode, vacancy: Option<real>)
    ensures Decide(intent, floor, t, mode, vacancy)
         == ResolveAutoAction(intent, floor, t, AutoAcceptMs(t), mode, Some(CounterBandForVacancy(vacancy)))
  {
  }

  /** Without a band of its own a decision uses 0.85; an infinite delay is never automated. */
  lemma DefaultBand(intent: real, floor: real, t: Tier, baseMs: Millis, mode: Mode)
    ensures ResolveAutoAction(intent, floor, t, baseMs, mode, None)
         == ResolveAutoAction(intent, floor, t, baseMs, mode, Some(0.85))
    ensures ResolveAutoAction(intent, floor, t, Infinite, mode, None) == ManualReview
  {
  }

  /** The delay by mode: none in manual mode, the tier's own in auto, and in hybrid for the two best tiers only. */
  lemma DelayByMode(t: Tier, baseMs: Millis)
    ensures ResolveAutoAcceptMs(t, baseMs, Manual) == Infinite && ResolveAutoAcceptMs(t, baseMs, Auto) == baseMs
    ensures ResolveAutoAcceptMs(t, baseMs, Hybrid) == if t in {Premium, Strong} then baseMs else Infinite
  {
  }

  /** The orders in which the claims about better offers, tiers and modes are made. */
  lemma RanksInOrder(amount: real, windowMs: int, delay: int)
    ensures ActionRank(ManualReview) < ActionRank(CounterAt(amount, windowMs)) < ActionRank(Accept(delay))
    ensures ModeRank(Manual) < ModeRank(Hybrid) < ModeRank(Auto)
  {
  }
}
