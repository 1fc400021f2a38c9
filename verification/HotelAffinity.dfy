/** The recently viewed trail, the price/rating weights read from it, and the ranking they drive. */
module HotelAffinity {
  import opened Base
  import opened Sorting

  const MAX := 8

  datatype HotelSig = HotelSig(id: string, price: Option<real>, rating: Option<real>, kind: Option<string>)

  // ----- the bounded trail -----

  function Without(trail: seq<HotelSig>, id: string): seq<HotelSig> {
    if trail == [] then []
    else (if trail[0].id != id then [trail[0]] else []) + Without(trail[1..], id)
  }

  /** slice(-n) */
  function LastN<T>(s: seq<T>, n: nat): seq<T> {
    if |s| <= n then s else s[|s| - n..]
  }

  /** The stored trail, rewritten on every view. */
  class Trail {
    var entries: seq<HotelSig>

    constructor ()
      ensures entries == []
    {
      entries := [];
    }

    method RecordHotelView(sig: HotelSig)
      modifies this
      ensures entries == Recorded(old(entries), sig)
    {
      if sig.id == "" {
        return;
      }
      var filtered := Without(entries, sig.id);
      filtered := filtered + [sig];
      entries := LastN(filtered, MAX);
    }
  }

  function Recorded(trail: seq<HotelSig>, sig: HotelSig): seq<HotelSig> {
    if sig.id == "" then trail else LastN(Without(trail, sig.id) + [sig], MAX)
  }

  function RecordAll(views: seq<HotelSig>): seq<HotelSig> {
    if views == [] then [] else Recorded(RecordAll(views[..|views| - 1]), views[|views| - 1])
  }

  predicate Occurs(s: seq<HotelSig>, id: string) {
    exists i :: 0 <= i < |s| && s[i].id == id
  }

  lemma OccursAppend(s: seq<HotelSig>, x: HotelSig, id: string)
    ensures Occurs(s + [x], id) <==> Occurs(s, id) || x.id == id
  {
    assert (s + [x])[|s|] == x;
    if i :| 0 <= i < |s| && s[i].id == id { assert (s + [x])[i] == s[i]; }
  }

  /** The full history: for each hotel its latest view, in order of latest view. */
  function LatestViews(views: seq<HotelSig>): seq<HotelSig> {
    if views == [] then []
    else if views[0].id == "" || Occurs(views[1..], views[0].id) then LatestViews(views[1..])
    else [views[0]] + LatestViews(views[1..])
  }

  ghost predicate UniqueIds(s: seq<HotelSig>) {
    forall i, j :: 0 <= i < j < |s| ==> s[i].id != s[j].id
  }

  lemma {:induction false} WithoutConcat(a: seq<HotelSig>, b: seq<HotelSig>, id: string)
    ensures Without(a + b, id) == Without(a, id) + Without(b, id)
  {
    if a == [] {
      assert a + b == b;
    } else {
      assert (a + b)[1..] == a[1..] + b;
      WithoutConcat(a[1..], b, id);
    }
  }

  lemma WithoutAbsent(s: seq<HotelSig>, id: string)
    requires forall i :: 0 <= i < |s| ==> s[i].id != id
    ensures Without(s, id) == s
  {
    if s != [] { WithoutAbsent(s[1..], id); }
  }

  /** Seeing one more hotel moves it to the end of the full history. */
  lemma {:induction false} LatestAppend(views: seq<HotelSig>, sig: HotelSig)
    requires sig.id != ""
    ensures LatestViews(views + [sig]) == Without(LatestViews(views), sig.id) + [sig]
  {
    hide Occurs;
    if views == [] {
      assert views + [sig] == [sig];
      assert [sig][1..] == [];
      NothingOccurs(sig.id);
    } else {
      var (rest, v) := (views[1..], views[0]);
      assert (views + [sig])[1..] == rest + [sig];
      LatestAppend(rest, sig);
      OccursAppend(rest, sig, v.id);
      if v.id != "" && !Occurs(rest, v.id) {
        WithoutConcat([v], LatestViews(rest), sig.id);
        WithoutOne(v, sig.id);
      }
    }
  }

  lemma NothingOccurs(id: string)
    ensures !Occurs([], id)
  {
  }

  lemma WithoutOne(v: HotelSig, id: string)
    ensures Without([v], id) == if v.id != id then [v] else []
  {
    assert [v][1..] == [];
  }

  lemma {:induction false} LatestIds(views: seq<HotelSig>)
    ensures UniqueIds(LatestViews(views))
    ensures forall v :: v in LatestViews(views) ==> Occurs(views, v.id)
  {
    hide Occurs;
    if views != [] {
      LatestIds(views[1..]);
      OccursHere(views);
    }
  }

  lemma OccursHere(views: seq<HotelSig>)
    requires views != []
    ensures forall id :: Occurs(views, id) <==> views[0].id == id || Occurs(views[1..], id)
  {
    assert forall i :: 1 <= i < |views| ==> views[i] == views[1..][i - 1];
  }

  /** With unique ids at most one entry goes, so the last 8 after a move only depend on the last 8 before. */
  lemma {:induction false} TruncateCommutes(full: seq<HotelSig>, sig: HotelSig)
    requires UniqueIds(full)
    ensures LastN(Without(LastN(full, MAX), sig.id) + [sig], MAX) == LastN(Without(full, sig.id) + [sig], MAX)
  {
    if |full| > MAX {
      var k := |full| - MAX;
      var (dropped, kept) := (full[..k], full[k..]);
      assert full == dropped + kept;
      WithoutConcat(dropped, kept, sig.id);
      WithoutLength(kept, sig.id);
      var (a, b) := (Without(dropped, sig.id), Without(kept, sig.id));
      assert Without(full, sig.id) + [sig] == a + (b + [sig]);
      if |b| == MAX - 1 {
        assert LastN(a + (b + [sig]), MAX) == b + [sig];
      }
    }
  }

  lemma {:induction false} WithoutLength(s: seq<HotelSig>, id: string)
    requires UniqueIds(s)
    ensures |s| - 1 <= |Without(s, id)| <= |s|
  {
    if s != [] {
      if s[0].id == id {
        WithoutAbsent(s[1..], id);
      } else {
        WithoutLength(s[1..], id);
      }
    }
  }

  /** Truncating at every step loses nothing: the trail is the end of the full de-duplicated history. */
  lemma {:induction false} TrailIsEndOfHistory(views: seq<HotelSig>)
    ensures var full := LatestViews(views);
      RecordAll(views) == if |full| <= 8 then full else full[|full| - 8..]
  {
    if views != [] {
      var (init, sig) := (views[..|views| - 1], views[|views| - 1]);
      assert views == init + [sig];
      TrailIsEndOfHistory(init);
      if sig.id == "" {
        BlankIgnored(init, sig);
      } else {
        LatestAppend(init, sig);
        LatestIds(init);
        TruncateCommutes(LatestViews(init), sig);
      }
    }
  }

  lemma {:induction false} BlankIgnored(views: seq<HotelSig>, sig: HotelSig)
    requires sig.id == ""
    ensures LatestViews(views + [sig]) == LatestViews(views)
  {
    if views == [] {
      assert views + [sig] == [sig] && [sig][1..] == [];
    } else {
      assert (views + [sig])[1..] == views[1..] + [sig];
      BlankIgnored(views[1..], sig);
      OccursAppend(views[1..], sig, views[0].id);
    }
  }

  // ----- weights -----

  datatype Affinity = Affinity(priceWeight: real, ratingWeight: real)

  /** +1 for a move to a cheaper hotel, -1 to a dearer one, 0 when either price is unknown or equal. */
  function PriceMove(prev: HotelSig, cur: HotelSig): int {
    if prev.price.Some? && cur.price.Some? && prev.price != cur.price
    then (if cur.price.value < prev.price.value then 1 else -1) else 0
  }

  function RatingMove(prev: HotelSig, cur: HotelSig): int {
    if prev.rating.Some? && cur.rating.Some? && prev.rating != cur.rating
    then (if cur.rating.value > prev.rating.value then 1 else -1) else 0
  }

  function Signal(trail: seq<HotelSig>, move: (HotelSig, HotelSig) -> int): int {
    if |trail| < 2 then 0
    else Signal(trail[..|trail| - 1], move) + move(trail[|trail| - 2], trail[|trail| - 1])
  }

  function Leaning(signal: int): real { RMax(0.15, RMin(0.85, 0.5 + signal as real * 0.12)) }

  function Weights(priceSignal: int, ratingSignal: int): Affinity {
    var (p, r) := (Leaning(priceSignal), Leaning(ratingSignal));
    LeaningBounds(priceSignal, ratingSignal);
    Affinity(p / (p + r), r / (p + r))
  }

  function AffinityOf(trail: seq<HotelSig>): Affinity {
    if |trail| < 2 then Affinity(0.5, 0.5) else Weights(Signal(trail, PriceMove), Signal(trail, RatingMove))
  }

  method GetAffinity(trail: seq<HotelSig>) returns (a: Affinity)
    ensures a == AffinityOf(trail)
  {
    hide Weights;
    if |trail| < 2 {
      return Affinity(0.5, 0.5);
    }
    var priceSignal, ratingSignal := 0, 0;
    for i := 1 to |trail|
      invariant priceSignal == Signal(trail[..i], PriceMove) && ratingSignal == Signal(trail[..i], RatingMove)
    {
      var prev, cur := trail[i - 1], trail[i];
      assert trail[..i + 1][..i] == trail[..i];
      if prev.price.Some? && cur.price.Some? && prev.price != cur.price {
        priceSignal := priceSignal + if cur.price.value < prev.price.value then 1 else -1;
      }
      if prev.rating.Some? && cur.rating.Some? && prev.rating != cur.rating {
        ratingSignal := ratingSignal + if cur.rating.value > prev.rating.value then 1 else -1;
      }
    }
    assert trail[..|trail|] == trail;
    return Weights(priceSignal, ratingSignal);
  }

  /** The weights sum to one, stay within [0.15, 0.85] and lean to the side with more moves. */
  lemma WeightsSound(trail: seq<HotelSig>)
    ensures var a := AffinityOf(trail);
      && SoundAffinity(a) && 0.15 <= a.priceWeight <= 0.85 && 0.15 <= a.ratingWeight <= 0.85
      && (|trail| >= 2 && Signal(trail, PriceMove) >= Signal(trail, RatingMove) ==> a.priceWeight >= a.ratingWeight)
      && (|trail| >= 2 && Signal(trail, PriceMove) <= Signal(trail, RatingMove) ==> a.priceWeight <= a.ratingWeight)
  {
    hide Leaning;
    var (p, r) := (Signal(trail, PriceMove), Signal(trail, RatingMove));
    LeaningBounds(p, r);
    Shares(Leaning(p), Leaning(r));
  }

  lemma LeaningBounds(p: int, r: int)
    ensures 0.15 <= Leaning(p) <= 0.85 && 0.15 <= Leaning(r) <= 0.85
    ensures (p >= r ==> Leaning(p) >= Leaning(r)) && (p <= r ==> Leaning(p) <= Leaning(r))
  {
  }

  lemma Shares(p: real, r: real)
    requires 0.15 <= p <= 0.85 && 0.15 <= r <= 0.85
    ensures p / (p + r) + r / (p + r) == 1.0 && p / (p + r) * (p + r) == p
    ensures 0.15 <= p / (p + r) <= 0.85 && 0.15 <= r / (p + r) <= 0.85
    ensures (p >= r ==> p / (p + r) >= r / (p + r)) && (p <= r ==> p / (p + r) <= r / (p + r))
  {
    QuotientTimes(p, p + r);
    QuotientTimes(r, p + r);
    SharesOf(p / (p + r), r / (p + r), p, r, p + r);
  }

  lemma SharesOf(x: real, y: real, p: real, r: real, s: real)
    requires 0.15 <= p <= 0.85 && 0.15 <= r <= 0.85 && s == p + r && x * s == p && y * s == r
    ensures x + y == 1.0 && 0.15 <= x <= 0.85 && 0.15 <= y <= 0.85
    ensures (p >= r ==> x >= y) && (p <= r ==> x <= y)
  {
    SumOfProducts(x, y, s, p, r);
    WholeIsOne(x + y, s, p + r);
    AtLeast(x, p, s);
    AtLeast(y, r, s);
    if p >= r {
      Ordered(y, x, r, p, s);
    }
    if p <= r {
      Ordered(x, y, p, r, s);
    }
  }

  lemma Ordered(x: real, y: real, p: real, r: real, s: real)
    requires s > 0.0 && x * s == p && y * s == r && p <= r
    ensures x <= y
  {
    Cancel(x, y, s);
  }

  lemma SumOfProducts(x: real, y: real, s: real, p: real, r: real)
    requires x * s == p && y * s == r
    ensures (x + y) * s == p + r
  {
  }

  lemma WholeIsOne(z: real, s: real, q: real)
    requires s > 0.0 && z * s == q && q == s
    ensures z == 1.0
  {
    Cancel(z, 1.0, s);
  }

  lemma AtLeast(x: real, p: real, s: real)
    requires s > 0.0 && x * s == p && 0.15 * s <= p
    ensures 0.15 <= x
  {
    Cancel(0.15, x, s);
  }

  // ----- ranking -----

  /** Prices and ratings are absent, or numbers (zero counts as absent). */
  datatype Candidate = Candidate(
      id: string, fromPrice: Option<real>, avgRating: Option<real>, propertyType: Option<string>)

  function Prices(cs: seq<Candidate>): seq<real> {
    if cs == [] then []
    else (if cs[0].fromPrice.Some? && cs[0].fromPrice.value > 0.0 then [cs[0].fromPrice.value] else [])
         + Prices(cs[1..])
  }

  function MinOf(ps: seq<real>): real {
    if ps == [] then 0.0 else if |ps| == 1 then ps[0] else RMin(ps[0], MinOf(ps[1..]))
  }

  function MaxOf(ps: seq<real>): real {
    if ps == [] then 0.0 else if |ps| == 1 then ps[0] else RMax(ps[0], MaxOf(ps[1..]))
  }

  predicate TypeMatch(c: Candidate, propertyType: Option<string>) {
    propertyType.Some? && propertyType.value != "" && c.propertyType == propertyType
  }

  function PriceScore(c: Candidate, minP: real, maxP: real): real {
    if c.fromPrice.Some? && c.fromPrice.value != 0.0
    then (maxP - c.fromPrice.value) / RMax(1.0, maxP - minP) else 0.5
  }

  function RatingScore(c: Candidate): real {
    if c.avgRating.Some? && c.avgRating.value != 0.0
    then RMax(0.0, RMin(1.0, (c.avgRating.value - 3.0) / 2.0)) else 0.4
  }

  function Score(c: Candidate, propertyType: Option<string>, aff: Affinity, minP: real, maxP: real): real {
    (if TypeMatch(c, propertyType) then 2.0 else 0.0)
    + (aff.priceWeight * PriceScore(c, minP, maxP) + aff.ratingWeight * RatingScore(c))
  }

  function RankCandidates(cs: seq<Candidate>, propertyType: Option<string>, aff: Affinity): seq<Candidate> {
    var ps := Prices(cs);
    Sort(cs, ByScore((c: Candidate) => Score(c, propertyType, aff, MinOf(ps), MaxOf(ps))))
  }

  lemma {:induction false} PriceBounds(cs: seq<Candidate>, c: Candidate)
    requires c in cs && c.fromPrice.Some? && c.fromPrice.value > 0.0
    ensures Prices(cs) != [] && MinOf(Prices(cs)) <= c.fromPrice.value <= MaxOf(Prices(cs))
  {
    var (head, rest) := (cs[0], Prices(cs[1..]));
    if head.fromPrice.Some? && head.fromPrice.value > 0.0 {
      assert Prices(cs)[1..] == rest;
      if c != head { PriceBounds(cs[1..], c); }
    } else {
      PriceBounds(cs[1..], c);
      assert Prices(cs) == rest;
    }
  }

  /** Weights as GetAffinity returns them. */
  predicate SoundAffinity(aff: Affinity) {
    aff.priceWeight >= 0.0 && aff.ratingWeight >= 0.0 && aff.priceWeight + aff.ratingWeight == 1.0
  }

  lemma PriceScoreUnit(cs: seq<Candidate>, c: Candidate)
    requires c in cs && (c.fromPrice.Some? ==> c.fromPrice.value >= 0.0)
    ensures 0.0 <= PriceScore(c, MinOf(Prices(cs)), MaxOf(Prices(cs))) <= 1.0
  {
    if c.fromPrice.Some? && c.fromPrice.value != 0.0 {
      PriceBounds(cs, c);
      var (lo, hi) := (MinOf(Prices(cs)), MaxOf(Prices(cs)));
      ShareOfWhole(hi - c.fromPrice.value, RMax(1.0, hi - lo));
    }
  }

  lemma BlendWithinOne(cs: seq<Candidate>, c: Candidate, aff: Affinity)
    requires c in cs && SoundAffinity(aff) && (c.fromPrice.Some? ==> c.fromPrice.value >= 0.0)
    ensures var (lo, hi) := (MinOf(Prices(cs)), MaxOf(Prices(cs)));
      0.0 <= aff.priceWeight * PriceScore(c, lo, hi) + aff.ratingWeight * RatingScore(c) <= 1.0
  {
    hide PriceScore, RatingScore, Prices;
    var (lo, hi) := (MinOf(Prices(cs)), MaxOf(Prices(cs)));
    PriceScoreUnit(cs, c);
    RatingScoreUnit(c);
    Blend(aff.priceWeight, aff.ratingWeight, PriceScore(c, lo, hi), RatingScore(c));
  }

  lemma RatingScoreUnit(c: Candidate)
    ensures 0.0 <= RatingScore(c) <= 1.0
  {
  }

  lemma Blend(w: real, v: real, x: real, y: real)
    requires w >= 0.0 && v >= 0.0 && w + v == 1.0 && 0.0 <= x <= 1.0 && 0.0 <= y <= 1.0
    ensures 0.0 <= w * x + v * y <= 1.0
  {
    ScaledDown(w, x);
    ScaledDown(v, y);
    SumWithin(w * x, v * y, w, v);
  }

  lemma SumWithin(a: real, b: real, w: real, v: real)
    requires 0.0 <= a <= w && 0.0 <= b <= v && w + v == 1.0
    ensures 0.0 <= a + b <= 1.0
  {
  }

  lemma ScaledDown(w: real, x: real)
    requires w >= 0.0 && 0.0 <= x <= 1.0
    ensures 0.0 <= w * x <= w
  {
  }

  /** The output is a permutation of the candidates and every same-type one comes before every other one. */
  lemma SameTypeFirst(cs: seq<Candidate>, propertyType: Option<string>, aff: Affinity)
    requires SoundAffinity(aff) && forall c :: c in cs && c.fromPrice.Some? ==> c.fromPrice.value >= 0.0
    ensures var r := RankCandidates(cs, propertyType, aff);
      && multiset(r) == multiset(cs)
      && (forall i, j :: 0 <= i < j < |r| && TypeMatch(r[j], propertyType) ==> TypeMatch(r[i], propertyType))
  {
    hide Sort, PriceScore, RatingScore, Prices;
    var r := RankCandidates(cs, propertyType, aff);
    var ps := Prices(cs);
    var score := (c: Candidate) => Score(c, propertyType, aff, MinOf(ps), MaxOf(ps));
    SortMultiset(cs, ByScore(score));
    SortMembers(cs, ByScore(score));
    ByScoreOrders(score);
    SortSorted(cs, ByScore(score));
    forall i, j | 0 <= i < j < |r| && TypeMatch(r[j], propertyType)
      ensures TypeMatch(r[i], propertyType)
    {
      assert r[i] in cs && r[j] in cs && score(r[j]) <= score(r[i]);
      BlendWithinOne(cs, r[i], aff);
      BlendWithinOne(cs, r[j], aff);
    }
  }

  /** A negative price escapes the unit interval and overtakes the right type: the price condition is needed. */
  lemma NegativePriceBreaksTypeOrder()
    ensures var aff := Affinity(0.5, 0.5);
      var same := Candidate("s", Some(1.0), Some(3.0), Some("villa"));
      var other := Candidate("o", Some(-9.0), Some(3.0), Some("hotel"));
      RankCandidates([same, other], Some("villa"), aff) == [other, same]
  {
    var same := Candidate("s", Some(1.0), Some(3.0), Some("villa"));
    var other := Candidate("o", Some(-9.0), Some(3.0), Some("hotel"));
    var cs := [same, other];
    assert cs[1..] == [other] && [other][1..] == [];
    assert Prices([other]) == [];
    assert Prices(cs) == [1.0];
    assert |"villa"| == 5 && "villa"[0] == 'v' && "hotel"[0] == 'h';
  }

  // ----- the weights and the order in their own terms -----

  /** How many steps of the trail go from one hotel to the next in the given way. */
  function CountSteps(trail: seq<HotelSig>, way: (HotelSig, HotelSig) -> bool): nat {
    if |trail| < 2 then 0 else (if way(trail[0], trail[1]) then 1 else 0) + CountSteps(trail[1..], way)
  }

  predicate ToCheaper(a: HotelSig, b: HotelSig) { a.price.Some? && b.price.Some? && b.price.value < a.price.value }

  predicate ToDearer(a: HotelSig, b: HotelSig) { a.price.Some? && b.price.Some? && b.price.value > a.price.value }

  predicate ToBetter(a: HotelSig, b: HotelSig) { a.rating.Some? && b.rating.Some? && b.rating.value > a.rating.value }

  predicate ToWorse(a: HotelSig, b: HotelSig) { a.rating.Some? && b.rating.Some? && b.rating.value < a.rating.value }

  lemma {:induction false} SignalFromFront(trail: seq<HotelSig>, move: (HotelSig, HotelSig) -> int)
    requires |trail| >= 2
    ensures Signal(trail, move) == move(trail[0], trail[1]) + Signal(trail[1..], move)
  {
    var k := |trail| - 1;
    if |trail| == 2 {
      assert Signal(trail[..1], move) == 0 && Signal(trail[1..], move) == 0;
    } else {
      assert trail[..k][1..] == trail[1..][..k - 1];
      SignalFromFront(trail[..k], move);
    }
  }

  lemma {:induction false} SignalCounts(trail: seq<HotelSig>)
    ensures Signal(trail, PriceMove) == CountSteps(trail, ToCheaper) - CountSteps(trail, ToDearer)
    ensures Signal(trail, RatingMove) == CountSteps(trail, ToBetter) - CountSteps(trail, ToWorse)
  {
    if |trail| >= 2 {
      SignalFromFront(trail, PriceMove);
      SignalFromFront(trail, RatingMove);
      SignalCounts(trail[1..]);
    }
  }

  /** 0.5, moved by 0.12 for each step more in one direction than in the other, kept in [0.15, 0.85]. */
  function Pull(more: nat, less: nat): real {
    var x := 0.5 + 0.12 * (more - less) as real;
    if x < 0.15 then 0.15 else if x > 0.85 then 0.85 else x
  }

  /** `w` and `v` are the shares of `p` and `r` in their sum. */
  predicate InRatio(w: real, v: real, p: real, r: real) { w * (p + r) == p && v * (p + r) == r }

  /**
   From two viewed hotels on, price and rating weigh in the ratio of their pulls, where moves to cheaper
   and to better rated hotels pull up and moves the other way down; before that they weigh the same.
   */
  lemma WeightsExact(trail: seq<HotelSig>)
    ensures var a := AffinityOf(trail);
      if |trail| < 2 then a.priceWeight == 0.5 && a.ratingWeight == 0.5
      else
        var p := Pull(CountSteps(trail, ToCheaper), CountSteps(trail, ToDearer));
        var r := Pull(CountSteps(trail, ToBetter), CountSteps(trail, ToWorse));
        InRatio(a.priceWeight, a.ratingWeight, p, r)
  {
    if |trail| >= 2 {
      SignalCounts(trail);
      LeaningIsPull(CountSteps(trail, ToCheaper), CountSteps(trail, ToDearer));
      LeaningIsPull(CountSteps(trail, ToBetter), CountSteps(trail, ToWorse));
      hide Leaning, Pull, Signal, InRatio, CountSteps;
      WeightsTimes(Signal(trail, PriceMove), Signal(trail, RatingMove));
    }
  }

  lemma LeaningIsPull(more: nat, less: nat)
    ensures Leaning(more - less) == Pull(more, less)
  {
  }

  lemma WeightsTimes(price: int, rating: int)
    ensures var w := Weights(price, rating);
      InRatio(w.priceWeight, w.ratingWeight, Leaning(price), Leaning(rating))
  {
    LeaningBounds(price, rating);
    hide Leaning;
    QuotientTimes(Leaning(price), Leaning(price) + Leaning(rating));
    QuotientTimes(Leaning(rating), Leaning(price) + Leaning(rating));
  }

  /** Ratings count from 3.0 (nothing) to 5.0 (all), evenly; an unrated hotel counts like one rated 3.8. */
  lemma RatingCounts(c: Candidate)
    ensures c.avgRating.None? || c.avgRating.value == 0.0 ==> RatingScore(c) == RatingScore(c.(avgRating := Some(3.8)))
    ensures c.avgRating.Some? && 3.0 <= c.avgRating.value && c.avgRating.value <= 5.0
            ==> 3.0 + 2.0 * RatingScore(c) == c.avgRating.value
    ensures c.avgRating.Some? && c.avgRating.value > 5.0 ==> RatingScore(c) == 1.0
    ensures c.avgRating.Some? && c.avgRating.value < 3.0 && c.avgRating.value != 0.0 ==> RatingScore(c) == 0.0
  {
  }

  /** Prices count evenly from the dearest candidate (nothing) to the cheapest (all); an unpriced one as halfway. */
  lemma PriceCounts(c: Candidate, lo: real, hi: real)
    requires lo + 1.0 <= hi
    ensures c.fromPrice.None? || c.fromPrice.value == 0.0 ==> PriceScore(c, lo, hi) == 0.5
    ensures c.fromPrice.Some? && c.fromPrice.value != 0.0
            ==> hi - PriceScore(c, lo, hi) * (hi - lo) == c.fromPrice.value
  {
    if c.fromPrice.Some? { QuotientTimes(hi - c.fromPrice.value, hi - lo); }
  }

  /** Prices closer together than 1 count by their plain difference. */
  lemma ClosePricesCount(c: Candidate, lo: real, hi: real)
    requires lo <= hi < lo + 1.0 && c.fromPrice.Some? && c.fromPrice.value != 0.0
    ensures PriceScore(c, lo, hi) == hi - c.fromPrice.value
  {
  }

  /** The least and the greatest positive price among the candidates. */
  lemma {:induction false} PriceRange(cs: seq<Candidate>)
    ensures var ps := Prices(cs);
      && (forall c :: c in cs && c.fromPrice.Some? && c.fromPrice.value > 0.0 ==> c.fromPrice.value in ps)
      && (forall p :: p in ps ==> p > 0.0 && MinOf(ps) <= p <= MaxOf(ps))
      && (ps != [] ==> MinOf(ps) in ps && MaxOf(ps) in ps) && (ps == [] ==> MinOf(ps) == 0.0 && MaxOf(ps) == 0.0)
      && (forall p :: p in ps ==> exists c :: c in cs && c.fromPrice == Some(p))
  {
    if cs != [] {
      PriceRange(cs[1..]);
      var (ps, rest) := (Prices(cs), Prices(cs[1..]));
      assert cs[0] in cs;
      if cs[0].fromPrice.Some? && cs[0].fromPrice.value > 0.0 {
        assert ps == [cs[0].fromPrice.value] + rest && ps[1..] == rest;
      } else {
        assert ps == rest;
      }
    }
  }

  /** Without a property type in view, or for another type, only the blend of price and rating counts. */
  lemma ScoreIsBlend(c: Candidate, propertyType: Option<string>, aff: Affinity, lo: real, hi: real)
    ensures var blend := aff.priceWeight * PriceScore(c, lo, hi) + aff.ratingWeight * RatingScore(c);
      Score(c, propertyType, aff, lo, hi)
      == if propertyType.GetOr("") != "" && c.propertyType == propertyType then 2.0 + blend else blend
  {
    hide PriceScore, RatingScore;
  }

  /** Of two candidates equal in type the one with the better blend comes first; equal blends keep their order. */
  lemma BetterBlendFirst(cs: seq<Candidate>, propertyType: Option<string>, aff: Affinity, i: nat, j: nat)
    requires i < j < |RankCandidates(cs, propertyType, aff)|
    ensures var r := RankCandidates(cs, propertyType, aff);
      var (lo, hi) := (MinOf(Prices(cs)), MaxOf(Prices(cs)));
      Score(r[i], propertyType, aff, lo, hi) >= Score(r[j], propertyType, aff, lo, hi)
  {
    hide Sort, Score, Prices;
    var ps := Prices(cs);
    var score := (c: Candidate) => Score(c, propertyType, aff, MinOf(ps), MaxOf(ps));
    ByScoreOrders(score);
    SortSorted(cs, ByScore(score));
  }
}
