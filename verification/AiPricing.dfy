/** The demand-driven price of a room night: clamped multiplier, price snapped to 100, score and labels. */
module AiPricing {
  import opened Base
  import C = Calendar

  // ----- occupancy -----

  /** None: the ratio was not given or is not a finite number. */
  type Ratio = Option<real>

  const OCCUPANCY_MULTS_DEFAULT: seq<real> := [0.88, 0.96, 1.00, 1.12, 1.28]

  function Band(ratio: real): (i: nat)
    ensures i < 5
  {
    var r := RMax(0.0, RMin(1.0, ratio));
    if r < 0.30 then 0 else if r < 0.50 then 1 else if r < 0.70 then 2 else if r < 0.85 then 3 else 4
  }

  /** An admin override list; None entries are not finite numbers. */
  type Overrides = Option<seq<Option<real>>>

  /** The five multipliers in force: an override list of the right length, entry by entry when finite. */
  function OccupancyMults(overrides: Overrides): (m: seq<real>)
    ensures |m| == 5
  {
    seq(5, i requires 0 <= i < 5 =>
      if overrides.Some? && |overrides.value| == 5 && overrides.value[i].Some? then overrides.value[i].value
      else OCCUPANCY_MULTS_DEFAULT[i])
  }

  function OccupancyMult(ratio: Ratio, mults: seq<real>): real
    requires |mults| == 5
  {
    match ratio case None => 1.0 case Some(r) => mults[Band(r)]
  }

  predicate PositiveBands(mults: seq<real>) {
    |mults| == 5 && 0.0 < mults[0] <= mults[1] <= mults[2] <= mults[3] <= mults[4]
  }

  predicate SoundOverrides(overrides: Overrides) { PositiveBands(OccupancyMults(overrides)) }

  // ----- labels -----

  datatype Level = Low | Moderate | High | VeryHigh | Surge

  datatype Tier = Green | Orange | Red

  function ClampScore(score: real): int { Min(100, Max(0, Round(score))) }

  function DemandLevelFromScore(score: real): Level {
    var s := ClampScore(score);
    if s >= 88 then Surge else if s >= 72 then VeryHigh else if s >= 52 then High else if s >= 32 then Moderate else Low
  }

  function DemandTierFromScore(score: real): Tier {
    match DemandLevelFromScore(score)
    case Surge => Red
    case VeryHigh => Red
    case High => Orange
    case _ => Green
  }

  function LevelRank(l: Level): nat {
    match l case Low => 0 case Moderate => 1 case High => 2 case VeryHigh => 3 case Surge => 4
  }

  function TierRank(t: Tier): nat { match t case Green => 0 case Orange => 1 case Red => 2 }

  // ----- the price -----

  /** The nine multipliers other than occupancy. */
  datatype Market = Market(
    season: real, dow: real, event: real, lead: real, city: real,
    micro: real, school: real, monsoon: real, longWeekend: real)

  function MarketMult(m: Market): real {
    m.season * m.dow * m.event * m.lead * m.city * m.micro * m.school * m.monsoon * m.longWeekend
  }

  datatype Clamp = Clamp(lo: real, hi: real)

  predicate SoundClamp(c: Clamp) { 0.0 < c.lo < c.hi }

  function Clamped(x: real, c: Clamp): real { RMax(c.lo, RMin(c.hi, x)) }

  function TotalMult(market: real, occupancy: real, c: Clamp): real { Clamped(market * occupancy, c) }

  /** Math.round(x / 100) * 100 */
  function Snap(x: real): int { Round(x / 100.0) * 100 }

  function PriceAt(base: real, mult: real): real { RMax(base, Snap(base * mult) as real) }

  function ScoreAt(mult: real, c: Clamp): int {
    var span := if c.hi - c.lo == 0.0 then 1.0 else c.hi - c.lo;
    ClampScore((mult - c.lo) / span * 100.0)
  }

  function FlashAt(base: real, price: real): real {
    RMax(Snap(base * 0.85) as real, Snap(price * 0.76) as real)
  }

  datatype Quote = Quote(price: real, suggestedFlash: real, demandLevel: Level, demandScore: int, multiplier: real)

  function CalculateDynamicPrice(base: real, market: Market, ratio: Ratio, overrides: Overrides, c: Clamp): Quote {
    var mult := TotalMult(MarketMult(market), OccupancyMult(ratio, OccupancyMults(overrides)), c);
    var price := PriceAt(base, mult);
    var score := ScoreAt(mult, c);
    Quote(price, FlashAt(base, price), DemandLevelFromScore(score as real), score, mult)
  }

  // ----- bounds -----

  lemma SnapNear(x: real)
    ensures x - 50.0 < Snap(x) as real <= x + 50.0 && Snap(x) % 100 == 0
  {
  }

  lemma SnapMonotone(x: real, y: real)
    requires x <= y
    ensures Snap(x) <= Snap(y)
  {
  }

  lemma Scale(base: real, x: real, y: real)
    requires base >= 0.0 && x <= y
    ensures base * x <= base * y
  {
    assert base * (y - x) >= 0.0;
  }

  /** The two products, in order. */
  lemma ScaleTo(base: real, x: real, y: real) returns (p: real, q: real)
    requires base >= 0.0 && x <= y
    ensures p == base * x && q == base * y && p <= q
  {
    p, q := base * x, base * y;
    Scale(base, x, y);
  }

  /** The price is the base or a multiple of 100, never below the base, and at most 50 above the top of the band. */
  lemma PriceBounds(base: real, market: Market, ratio: Ratio, overrides: Overrides, c: Clamp)
    requires base >= 0.0 && SoundClamp(c)
    ensures var q := CalculateDynamicPrice(base, market, ratio, overrides, c);
      && (q.price == base || exists k: int :: q.price == (100 * k) as real)
      && base <= q.price <= RMax(base, base * c.hi + 50.0)
      && c.lo <= q.multiplier <= c.hi && 0 <= q.demandScore <= 100
  {
    hide MarketMult, OccupancyMult, OccupancyMults, ScoreAt, PriceAt;
    var q := CalculateDynamicPrice(base, market, ratio, overrides, c);
    PriceAtBounds(base, q.multiplier, c.hi);
    ScoreRange(q.multiplier, c);
  }

  lemma PriceAtBounds(base: real, mult: real, hi: real)
    requires base >= 0.0 && mult <= hi
    ensures var price := PriceAt(base, mult);
      && (price == base || exists k: int :: price == (100 * k) as real)
      && base <= price <= RMax(base, base * hi + 50.0)
  {
    hide Snap;
    var raw, top := ScaleTo(base, mult, hi);
    SnappedWithin(base, raw, top);
  }

  lemma SnappedWithin(base: real, raw: real, top: real)
    requires raw <= top
    ensures var price := RMax(base, Snap(raw) as real);
      && (price == base || exists k: int :: price == (100 * k) as real)
      && base <= price <= RMax(base, top + 50.0)
  {
    hide Snap;
    SnapNear(raw);
    var k := Snap(raw) / 100;
    assert Snap(raw) == 100 * k;
  }

  lemma ScoreRange(mult: real, c: Clamp)
    ensures 0 <= ScoreAt(mult, c) <= 100
  {
  }

  // ----- monotonicity -----

  lemma PriceMonotone(base: real, m: real, n: real)
    requires base >= 0.0 && m <= n
    ensures PriceAt(base, m) <= PriceAt(base, n)
  {
    hide Snap;
    var p, q := ScaleTo(base, m, n);
    SnapMonotone(p, q);
  }

  lemma ScoreMonotone(m: real, n: real, c: Clamp)
    requires SoundClamp(c) && m <= n
    ensures ScoreAt(m, c) <= ScoreAt(n, c)
  {
    var span := c.hi - c.lo;
    if m < n { QuotientOrder(n - c.lo, m - c.lo, span); }
    assert (m - c.lo) / span * 100.0 <= (n - c.lo) / span * 100.0;
  }

  lemma LabelsMonotone(s: int, t: int)
    requires s <= t
    ensures LevelRank(DemandLevelFromScore(s as real)) <= LevelRank(DemandLevelFromScore(t as real))
    ensures TierRank(DemandTierFromScore(s as real)) <= TierRank(DemandTierFromScore(t as real))
  {
  }

  lemma ProductPositive(m: Market)
    requires m.season > 0.0 && m.dow > 0.0 && m.event > 0.0 && m.lead > 0.0 && m.city > 0.0
    requires m.micro > 0.0 && m.school > 0.0 && m.monsoon > 0.0 && m.longWeekend > 0.0
    ensures MarketMult(m) > 0.0
  {
    var a := m.season * m.dow;
    var b := a * m.event;
    var c := b * m.lead;
    var d := c * m.city;
    var e := d * m.micro;
    var f := e * m.school;
    var g := f * m.monsoon;
  }

  predicate PositiveMarket(m: Market) {
    && m.season > 0.0 && m.dow > 0.0 && m.event > 0.0 && m.lead > 0.0 && m.city > 0.0
    && m.micro > 0.0 && m.school > 0.0 && m.monsoon > 0.0 && m.longWeekend > 0.0
  }

  lemma ClampMonotone(x: real, y: real, c: Clamp)
    requires x <= y
    ensures Clamped(x, c) <= Clamped(y, c)
  {
  }

  lemma TotalMonotone(market: real, a: real, b: real, c: Clamp)
    requires market > 0.0 && a <= b
    ensures TotalMult(market, a, c) <= TotalMult(market, b, c)
  {
    Scale(market, a, b);
    ClampMonotone(market * a, market * b, c);
  }

  lemma BandMonotone(r: real, s: real, mults: seq<real>)
    requires r <= s && PositiveBands(mults)
    ensures OccupancyMult(Some(r), mults) <= OccupancyMult(Some(s), mults)
  {
    assert Band(r) <= Band(s);
  }

  /** As a night fills up, neither price nor score nor level nor tier ever falls. */
  lemma FullerNeverCheaper(base: real, market: Market, r: real, s: real, overrides: Overrides, c: Clamp)
    requires base >= 0.0 && PositiveMarket(market) && SoundOverrides(overrides) && SoundClamp(c) && r <= s
    ensures var q := CalculateDynamicPrice(base, market, Some(r), overrides, c);
      var p := CalculateDynamicPrice(base, market, Some(s), overrides, c);
      && q.price <= p.price && q.demandScore <= p.demandScore
      && LevelRank(q.demandLevel) <= LevelRank(p.demandLevel)
      && TierRank(DemandTierFromScore(q.demandScore as real)) <= TierRank(DemandTierFromScore(p.demandScore as real))
  {
    hide MarketMult, OccupancyMult, OccupancyMults, PriceAt, ScoreAt, TotalMult;
    hide DemandLevelFromScore, DemandTierFromScore, PositiveBands;
    var mults := OccupancyMults(overrides);
    var (x, y) := (OccupancyMult(Some(r), mults), OccupancyMult(Some(s), mults));
    ProductPositive(market);
    BandMonotone(r, s, mults);
    TotalMonotone(MarketMult(market), x, y, c);
    var (m, n) := (TotalMult(MarketMult(market), x, c), TotalMult(MarketMult(market), y, c));
    PriceMonotone(base, m, n);
    ScoreMonotone(m, n, c);
    LabelsMonotone(ScoreAt(m, c), ScoreAt(n, c));
  }

  /** For one base, a strictly higher score never comes with a lower price, whatever made the demand. */
  lemma HigherScoreNeverCheaper(
      base: real, a: Market, ra: Ratio, oa: Overrides, b: Market, rb: Ratio, ob: Overrides, c: Clamp)
    requires base >= 0.0 && SoundClamp(c)
    ensures var (q, p) := (CalculateDynamicPrice(base, a, ra, oa, c), CalculateDynamicPrice(base, b, rb, ob, c));
      q.demandScore < p.demandScore ==> q.price <= p.price
  {
    hide MarketMult, OccupancyMult, OccupancyMults, PriceAt, ScoreAt, TotalMult, DemandLevelFromScore, FlashAt;
    var (q, p) := (CalculateDynamicPrice(base, a, ra, oa, c), CalculateDynamicPrice(base, b, rb, ob, c));
    if p.multiplier <= q.multiplier {
      ScoreMonotone(p.multiplier, q.multiplier, c);
    } else {
      PriceMonotone(base, q.multiplier, p.multiplier);
    }
  }

  // ----- the flash suggestion -----

  /** Bases from which 85 percent rounds up past the base itself. */
  predicate RoundsPast(base: real) {
    1000.0 / 17.0 <= base < 100.0 || 3000.0 / 17.0 <= base < 200.0 || 5000.0 / 17.0 <= base < 300.0
  }

  /** A price as PriceAt produces it: at least the base, and the base itself or a multiple of 100. */
  ghost predicate SnappedPrice(base: real, price: real) {
    price == base || (price > base && exists k: int :: price == (100 * k) as real)
  }

  lemma FlashAgainst(base: real, price: real)
    requires base >= 0.0 && SnappedPrice(base, price)
    ensures FlashAt(base, price) <= price <==> !(price == base && RoundsPast(base))
  {
    BaseShare(base, price);
    PriceShare(base, price);
  }

  lemma BaseShare(base: real, price: real)
    requires base >= 0.0 && SnappedPrice(base, price)
    ensures Snap(base * 0.85) as real <= price <==> !(price == base && RoundsPast(base))
  {
    var s := Snap(base * 0.85);
    assert s as real <= base * 0.85 + 50.0 < s as real + 100.0;
    if price != base {
      var k: int :| price == (100 * k) as real;
      assert s / 100 * 100 == s;
      if base >= 400.0 { assert s as real <= base; }
    }
  }

  lemma PriceShare(base: real, price: real)
    requires base >= 0.0 && SnappedPrice(base, price)
    ensures Snap(price * 0.76) as real <= price || (price == base && RoundsPast(base))
  {
    var s := Snap(price * 0.76);
    assert s as real <= price * 0.76 + 50.0 < s as real + 100.0;
    if price != base {
      var k: int :| price == (100 * k) as real;
    }
  }

  lemma QuotedIsSnapped(base: real, mult: real)
    ensures SnappedPrice(base, PriceAt(base, mult))
  {
    var k := Round(base * mult / 100.0);
    assert Snap(base * mult) == 100 * k;
  }

  /** The price stays at the base exactly below the halfway point to the next multiple of 100. */
  lemma StaysAtBase(base: real, raw: real)
    ensures RMax(base, Snap(raw) as real) == base <==> raw < ((base / 100.0).Floor * 100 + 50) as real
  {
    var f := (base / 100.0).Floor;
    var k := Round(raw / 100.0);
    assert Snap(raw) == 100 * k;
    assert (100 * f) as real <= base < (100 * f + 100) as real;
    assert k <= f <==> raw < (f * 100 + 50) as real;
  }

  /** The flash price exceeds the live price exactly when the base is in one of three small bands and is not raised. */
  lemma FlashExact(base: real, mult: real)
    requires base >= 0.0
    ensures FlashAt(base, PriceAt(base, mult)) <= PriceAt(base, mult)
       <==> !(RoundsPast(base) && base * mult < ((base / 100.0).Floor * 100 + 50) as real)
  {
    hide Snap, FlashAt, RoundsPast;
    QuotedIsSnapped(base, mult);
    FlashAgainst(base, PriceAt(base, mult));
    StaysAtBase(base, base * mult);
  }

  /** The bases safe under every demand are exactly those outside the three bands. */
  lemma FlashSafeBases(base: real)
    requires base >= 0.0
    ensures (forall mult :: FlashAt(base, PriceAt(base, mult)) <= PriceAt(base, mult)) <==> !RoundsPast(base)
  {
    hide Snap, FlashAt, RoundsPast, PriceAt;
    forall mult ensures !RoundsPast(base) ==> FlashAt(base, PriceAt(base, mult)) <= PriceAt(base, mult) {
      FlashExact(base, mult);
    }
    FlashExact(base, 0.0);
    assert base * 0.0 == 0.0;
  }

  lemma FlashNeverAbovePrice(base: real, market: Market, ratio: Ratio, overrides: Overrides, c: Clamp)
    requires base >= 0.0 && !RoundsPast(base)
    ensures var q := CalculateDynamicPrice(base, market, ratio, overrides, c); q.suggestedFlash <= q.price
  {
    hide FlashAt, PriceAt, MarketMult, OccupancyMult, OccupancyMults, ScoreAt, TotalMult, RoundsPast;
    FlashExact(base, CalculateDynamicPrice(base, market, ratio, overrides, c).multiplier);
  }

  /** The least amount that snaps to at least `x`. */
  function Needed(x: real): real { (Ceil(x / 100.0) * 100 - 50) as real }

  lemma SnapReaches(y: real, x: real)
    ensures Snap(y) as real >= x <==> y >= Needed(x)
  {
    var (k, n) := (Round(y / 100.0), Ceil(x / 100.0));
    assert Snap(y) == 100 * k;
    assert k >= n <==> y >= Needed(x);
    assert (100 * k) as real >= x <==> k as real >= x / 100.0;
  }

  /** 85 percent of the base snaps back up to the base only for these bases. */
  lemma ShareReachesBase(base: real)
    requires base >= 0.0
    ensures base * 0.85 >= Needed(base)
       <==> RoundsPast(base) || base == 0.0 || base == 100.0 || base == 200.0 || base == 300.0
  {
    var n := Ceil(base / 100.0);
    assert (100 * n - 100) as real < base <= (100 * n) as real;
  }

  lemma PriceReaches(base: real, mult: real)
    requires base >= 0.0
    ensures Snap(PriceAt(base, mult) * 0.76) as real >= base
       <==> base * 0.76 >= Needed(base) || base * mult >= Needed(Needed(base) / 0.76)
  {
    SnapReaches(PriceAt(base, mult) * 0.76, base);
    SnapReaches(base * mult, Needed(base) / 0.76);
    hide Snap, Needed;
    Share76(base, Needed(base));
    Share76(Snap(base * mult) as real, Needed(base));
  }

  lemma Share76(x: real, t: real)
    ensures x * 0.76 >= t <==> x >= t / 0.76
  {
  }

  /** The flash suggestion reaches the base exactly for those bases or when demand lifts the price far enough. */
  lemma FlashReachesBaseExactly(base: real, market: Market, ratio: Ratio, overrides: Overrides, c: Clamp)
    requires base >= 0.0
    ensures var q := CalculateDynamicPrice(base, market, ratio, overrides, c);
      q.suggestedFlash >= base
      <==> RoundsPast(base) || base == 0.0 || base == 100.0 || base == 200.0 || base == 300.0
           || base * q.multiplier >= Needed(Needed(base) / 0.76)
  {
    hide Snap, PriceAt, MarketMult, OccupancyMult, OccupancyMults, ScoreAt, TotalMult, RoundsPast, Needed;
    var q := CalculateDynamicPrice(base, market, ratio, overrides, c);
    SnapReaches(base * 0.85, base);
    ShareReachesBase(base);
    PriceReaches(base, q.multiplier);
  }

  const FLAT := Market(1.0, 1.0, 1.0, 1.0, 1.0, 1.0, 1.0, 1.0, 1.0)
  const CLAMP_DEFAULT := Clamp(0.55, 2.20)

  /** A base of 1000 in a flat market is suggested at 900. */
  lemma FlashBelowBase()
    ensures CalculateDynamicPrice(1000.0, FLAT, None, None, CLAMP_DEFAULT).suggestedFlash == 900.0
  {
    hide ScoreAt, DemandLevelFromScore, OccupancyMults, MarketMult, PriceAt, FlashAt;
    FlatMarket();
    FlashOfThousand();
  }

  lemma FlashOfThousand()
    ensures PriceAt(1000.0, 1.0) == 1000.0 && FlashAt(1000.0, 1000.0) == 900.0
  {
    SnapOf(1000.0, 10);
    SnapOf(850.0, 9);
    SnapOf(760.0, 8);
    hide Snap;
  }

  lemma FlatMarket()
    ensures MarketMult(FLAT) == 1.0
  {
  }

  lemma SnapOf(x: real, k: int)
    requires k as real - 0.5 <= x / 100.0 < k as real + 0.5
    ensures Snap(x) == 100 * k
  {
  }

  // ----- long weekends -----

  datatype Holiday = Holiday(month: nat, day: nat)

  const GAZETTED: seq<Holiday> := [Holiday(1, 26), Holiday(8, 15), Holiday(10, 2)]

  datatype Window = Window(first: int, last: int, isLong: bool)

  /** The surge window of a holiday falling on weekday `w` (0 is Sunday), as offsets from it. */
  function WindowFor(w: nat): Window {
    if w == 5 then Window(0, 2, true)
    else if w == 1 then Window(-2, 0, true)
    else if w == 4 then Window(0, 3, true)
    else if w == 2 then Window(-3, 0, true)
    else if w == 6 then Window(-1, 1, true)
    else if w == 0 then Window(-1, 1, true)
    else Window(0, 0, false)
  }

  function HolidayDate(h: Holiday, year: nat): C.Date { C.Date(year, h.month, h.day) }

  predicate InWindow(d: C.Date, h: Holiday)
    requires C.Valid(d) && C.Valid(HolidayDate(h, d.year))
  {
    var hd := HolidayDate(h, d.year);
    var w := WindowFor(C.Weekday(hd));
    C.DayNumber(hd) + w.first <= C.DayNumber(d) <= C.DayNumber(hd) + w.last
  }

  function LongWeekendMultFrom(d: C.Date, holidays: seq<Holiday>, longMult: real, holidayMult: real): real
    requires C.Valid(d) && forall h :: h in holidays ==> C.Valid(HolidayDate(h, d.year))
  {
    if holidays == [] then 1.0
    else if InWindow(d, holidays[0]) then
      if WindowFor(C.Weekday(HolidayDate(holidays[0], d.year))).isLong then longMult else holidayMult
    else LongWeekendMultFrom(d, holidays[1..], longMult, holidayMult)
  }

  lemma GazettedValid(year: nat)
    ensures forall h :: h in GAZETTED ==> C.Valid(HolidayDate(h, year))
  {
  }

  /** The Saturday of the weekend a holiday on weekday `w` joins, as an offset. */
  function SaturdayOffset(w: int): int { if w <= 2 then -1 - w else 6 - w }

  /**
   A window is long unless the holiday is a Wednesday; it then runs three or four days, holds the
   holiday, and holds a whole weekend.
   */
  lemma LongWindowHoldsWeekend(w: nat)
    requires w < 7
    ensures var win := WindowFor(w);
      && win.first <= 0 <= win.last && (win.isLong <==> w != 3)
      && (!win.isLong ==> win.first == win.last == 0)
      && (win.isLong ==> 3 <= win.last - win.first + 1 <= 4)
      && (win.isLong ==> win.first <= SaturdayOffset(w) < win.last && (w as int + SaturdayOffset(w)) % 7 == 6)
  {
  }

  lemma HolidaysFarApart(year: nat)
    ensures C.DayNumber(C.Date(year, 1, 26)) + 100 < C.DayNumber(C.Date(year, 8, 15))
    ensures C.DayNumber(C.Date(year, 8, 15)) + 40 < C.DayNumber(C.Date(year, 10, 2))
  {
    C.MonthsIncrease(year, 1, 5);
    C.MonthsIncrease(year, 5, 8);
    C.MonthsIncrease(year, 8, 9);
    assert C.DaysBeforeMonth(year, 8) >= C.DaysBeforeMonth(year, 5) + 31;
    assert C.DaysBeforeMonth(year, 5) == C.DaysBeforeMonth(year, 4) + 30;
    assert C.DaysBeforeMonth(year, 4) == C.DaysBeforeMonth(year, 3) + 31;
    assert C.DaysBeforeMonth(year, 10) == C.DaysBeforeMonth(year, 9) + 30;
  }

  /** The windows of a year's holidays never meet, so their order in the table does not matter. */
  lemma WindowsDisjoint(d: C.Date, g: Holiday, h: Holiday)
    requires C.Valid(d) && g in GAZETTED && h in GAZETTED && g != h
    ensures C.Valid(HolidayDate(g, d.year)) && C.Valid(HolidayDate(h, d.year))
    ensures !(InWindow(d, g) && InWindow(d, h))
  {
    GazettedValid(d.year);
    HolidaysFarApart(d.year);
    hide C.DayNumber, C.Weekday;
    assert g == GAZETTED[0] || g == GAZETTED[1] || g == GAZETTED[2];
    assert h == GAZETTED[0] || h == GAZETTED[1] || h == GAZETTED[2];
  }

  lemma {:induction false} OnlyMatch(d: C.Date, holidays: seq<Holiday>, h: Holiday, longMult: real, holidayMult: real)
    requires C.Valid(d) && forall g :: g in holidays ==> C.Valid(HolidayDate(g, d.year))
    requires h in holidays && forall g :: g in holidays ==> (InWindow(d, g) <==> g == h)
    ensures LongWeekendMultFrom(d, holidays, longMult, holidayMult)
         == if WindowFor(C.Weekday(HolidayDate(h, d.year))).isLong then longMult else holidayMult
  {
    hide InWindow;
    if holidays[0] != h { OnlyMatch(d, holidays[1..], h, longMult, holidayMult); }
  }

  lemma {:induction false} NoMatch(d: C.Date, holidays: seq<Holiday>, longMult: real, holidayMult: real)
    requires C.Valid(d) && forall g :: g in holidays ==> C.Valid(HolidayDate(g, d.year)) && !InWindow(d, g)
    ensures LongWeekendMultFrom(d, holidays, longMult, holidayMult) == 1.0
  {
    hide InWindow;
    if holidays != [] { NoMatch(d, holidays[1..], longMult, holidayMult); }
  }

  /**
   The surge is decided by the one holiday whose window holds the date, and is absent when there is
   none; so every table listing the same holidays, in whatever order, gives the same surge.
   */
  lemma LongWeekendExact(d: C.Date, table: seq<Holiday>, longMult: real, holidayMult: real)
    requires C.Valid(d) && forall h :: h in table <==> h in GAZETTED
    ensures forall h :: h in GAZETTED ==> C.Valid(HolidayDate(h, d.year))
    ensures forall h :: h in GAZETTED && InWindow(d, h) ==>
      LongWeekendMultFrom(d, table, longMult, holidayMult)
      == if WindowFor(C.Weekday(HolidayDate(h, d.year))).isLong then longMult else holidayMult
    ensures (forall h :: h in GAZETTED ==> !InWindow(d, h)) ==>
      LongWeekendMultFrom(d, table, longMult, holidayMult) == 1.0
    ensures LongWeekendMultFrom(d, table, longMult, holidayMult)
         == LongWeekendMultFrom(d, GAZETTED, longMult, holidayMult)
  {
    GazettedValid(d.year);
    hide InWindow, LongWeekendMultFrom, WindowFor;
    forall h | h in GAZETTED && InWindow(d, h)
      ensures LongWeekendMultFrom(d, table, longMult, holidayMult)
           == LongWeekendMultFrom(d, GAZETTED, longMult, holidayMult)
           == if WindowFor(C.Weekday(HolidayDate(h, d.year))).isLong then longMult else holidayMult
    {
      forall g | g in GAZETTED ensures InWindow(d, g) <==> g == h {
        if g != h { WindowsDisjoint(d, g, h); }
      }
      OnlyMatch(d, table, h, longMult, holidayMult);
      OnlyMatch(d, GAZETTED, h, longMult, holidayMult);
    }
    if forall h :: h in GAZETTED ==> !InWindow(d, h) {
      NoMatch(d, table, longMult, holidayMult);
      NoMatch(d, GAZETTED, longMult, holidayMult);
    }
  }

  // ----- the hourly variation and the price as a function of the base -----

  /** JavaScript's %: the remainder takes the sign of the dividend. */
  function JsMod(x: real, m: real): real
    requires m > 0.0
  {
    var q := x / m;
    x - m * (if q >= 0.0 then q.Floor else -((-q).Floor)) as real
  }

  /** Check-in date, hour of the clock and length of the city's name. */
  datatype Moment = Moment(date: C.Date, hour: nat, cityLength: nat)

  /** Admin amplitude in percent (None: the built-in variation) and the two holiday surges. */
  datatype Tuning = Tuning(amplitude: Option<real>, longWeekend: real, isolatedHoliday: real)

  function MicroMult(base: real, at: Moment, amplitude: Option<real>): real {
    var seed := JsMod(base, 100.0) * 3.0 + (at.hour * 17 + at.cityLength * 7 + at.date.day * 5) as real;
    var step := JsMod(seed, 11.0) - 5.0;
    1.0 + match amplitude case None => step / 200.0 case Some(a) => step / 5.0 * (a / 100.0)
  }

  /** The market with its hourly variation and long-weekend surge computed. */
  function Demand(base: real, market: Market, at: Moment, tuning: Tuning): Market
    requires C.Valid(at.date)
  {
    GazettedValid(at.date.year);
    market.(
      micro := MicroMult(base, at, tuning.amplitude),
      longWeekend := LongWeekendMultFrom(at.date, GAZETTED, tuning.longWeekend, tuning.isolatedHoliday))
  }

  function LivePrice(
      base: real, market: Market, at: Moment, tuning: Tuning, ratio: Ratio, overrides: Overrides, c: Clamp): real
    requires C.Valid(at.date)
  {
    CalculateDynamicPrice(base, Demand(base, market, at, tuning), ratio, overrides, c).price
  }

  /** Whatever the demand, the dearer base never gets the lower price under this clamp. */
  ghost predicate NeverFalls(a: real, b: real, at: Moment, tuning: Tuning, c: Clamp)
    requires C.Valid(at.date)
  {
    forall market: Market, ratio: Ratio, overrides: Overrides ::
      PositiveMarket(market) && SoundOverrides(overrides) ==>
        LivePrice(a, market, at, tuning, ratio, overrides, c) <= LivePrice(b, market, at, tuning, ratio, overrides, c)
  }

  /** The variation's share of the price: a multiplier below zero counts as zero, because of the clamp. */
  function Varied(base: real, at: Moment, tuning: Tuning): real {
    base * RMax(0.0, MicroMult(base, at, tuning.amplitude))
  }

  lemma Times(x: real, y: real, z: real)
    ensures x * (y * z) == y * (x * z)
  {
  }

  lemma ScaledSign(scale: real, x: real)
    requires scale > 0.0
    ensures RMax(0.0, scale * x) == scale * RMax(0.0, x)
  {
  }

  /** Where the clamp reverses nothing it only brings the two values together. */
  lemma ClampNarrows(x: real, y: real, c: Clamp)
    requires SoundClamp(c) && Clamped(x, c) > Clamped(y, c)
    ensures Clamped(x, c) <= RMax(0.0, x) && RMax(0.0, y) <= Clamped(y, c)
  {
  }

  lemma Chain(a: real, b: real, scale: real, u: real, v: real, x: real, y: real)
    requires 0.0 <= a <= b && scale > 0.0 && a * u <= b * v && x <= scale * u && scale * v <= y
    ensures a * x <= b * y
  {
    Scale(a, x, scale * u);
    Times(a, scale, u);
    Scale(scale, a * u, b * v);
    Times(b, scale, v);
    Scale(b, scale * v, y);
  }

  /** The clamped multiplier of a demand that is `scale` apart from the variation `x`. */
  function ScaledMult(scale: real, x: real, c: Clamp): real { Clamped(scale * x, c) }

  /** The order of base times variation survives scaling by demand and clamping. */
  lemma RawOrdered(a: real, b: real, scale: real, x: real, y: real, c: Clamp, m: real, n: real)
    requires 0.0 <= a <= b && scale > 0.0 && SoundClamp(c) && a * RMax(0.0, x) <= b * RMax(0.0, y)
    requires m == ScaledMult(scale, x, c) && n == ScaledMult(scale, y, c)
    ensures a * m <= b * n
  {
    hide Clamped;
    ClampPositive(scale * y, c);
    if m > n {
      ClampNarrows(scale * x, scale * y, c);
      ScaledSign(scale, x);
      ScaledSign(scale, y);
      Chain(a, b, scale, RMax(0.0, x), RMax(0.0, y), m, n);
    } else {
      ProductOrdered(a, b, m, n);
    }
  }

  /** ... and then snapping and the floor. */
  lemma OrderedPrices(a: real, b: real, scale: real, x: real, y: real, c: Clamp, m: real, n: real)
    requires 0.0 <= a <= b && scale > 0.0 && SoundClamp(c) && a * RMax(0.0, x) <= b * RMax(0.0, y)
    requires m == ScaledMult(scale, x, c) && n == ScaledMult(scale, y, c)
    ensures PriceAt(a, m) <= PriceAt(b, n)
  {
    hide PriceAt, ScaledMult, RMax;
    RawOrdered(a, b, scale, x, y, c, m, n);
    PriceOrdered(a, m, b, n);
  }

  lemma PriceOrdered(a: real, m: real, b: real, n: real)
    requires a <= b && a * m <= b * n
    ensures PriceAt(a, m) <= PriceAt(b, n)
  {
    SnapMonotone(a * m, b * n);
    hide Snap;
  }

  lemma ProductOrdered(a: real, b: real, x: real, y: real)
    requires 0.0 <= a <= b && 0.0 <= y && x <= y
    ensures a * x <= b * y
  {
    Scale(a, x, y);
    ScaleBase(a, b, y);
  }

  lemma ScaleBase(a: real, b: real, x: real)
    requires a <= b && x >= 0.0
    ensures a * x <= b * x
  {
  }

  lemma ClampPositive(x: real, c: Clamp)
    requires SoundClamp(c)
    ensures Clamped(x, c) > 0.0
  {
  }

  /** The least raw amount that snaps above the base `b` and above any raw amount from `low` up that stays below it. */
  function Threshold(b: real, low: real): int {
    100 * Max((b / 100.0).Floor + 1, ((low + 50.0) / 100.0).Floor + 1) - 50
  }

  lemma ThresholdHolds(b: real, low: real)
    ensures var t := Threshold(b, low); (t + 50) % 100 == 0 && b < (t + 50) as real && low < t as real
  {
  }

  lemma ThresholdLeast(b: real, low: real, k: int)
    requires b < (100 * k) as real && low < (100 * k - 50) as real
    ensures Threshold(b, low) <= 100 * k - 50
  {
    assert (b / 100.0).Floor < k && ((low + 50.0) / 100.0).Floor < k;
  }

  lemma SnapSteps(x: real) returns (k: int)
    ensures Snap(x) == 100 * k && (100 * k - 50) as real <= x < (100 * k + 50) as real
  {
    k := Round(x / 100.0);
  }

  /** Raw amount `p` at base `a` beats raw amount `q` at base `b` only from the threshold up. */
  lemma CrossingNeedsThreshold(a: real, p: real, b: real, q: real, low: real)
    requires a <= b && low <= q && RMax(a, Snap(p) as real) > RMax(b, Snap(q) as real)
    ensures p >= Threshold(b, low) as real
  {
    hide Snap, Threshold;
    var k := SnapSteps(p);
    var j := SnapSteps(q);
    assert j < k;
    ThresholdLeast(b, low, k);
  }

  lemma ThresholdCrosses(a: real, p: real, b: real, q: real, t: int)
    requires (t + 50) % 100 == 0 && b < (t + 50) as real && q < t as real <= p
    ensures RMax(a, Snap(p) as real) > RMax(b, Snap(q) as real)
  {
    hide Snap;
    var k := SnapSteps(p);
    var j := SnapSteps(q);
    var n := (t + 50) / 100;
    assert t == 100 * n - 50;
    assert j < n <= k;
  }

  function RawAt(base: real, mult: real): real { base * mult }

  /** The top of the clamp lifts the cheaper base `a` to the threshold of the dearer base `b`. */
  predicate HasRoom(a: real, b: real, c: Clamp) {
    RawAt(a, c.hi) >= Threshold(b, RawAt(b, c.lo)) as real
  }

  lemma RoomOf(a: real, b: real, c: Clamp) returns (top: real, low: real)
    ensures top == a * c.hi && low == b * c.lo && (HasRoom(a, b, c) <==> top >= Threshold(b, low) as real)
  {
    top, low := RawAt(a, c.hi), RawAt(b, c.lo);
  }

  /** Without that room the cheaper base never becomes the dearer one. */
  lemma NoRoomToCross(a: real, m: real, b: real, n: real, c: Clamp)
    requires 0.0 <= a <= b && m <= c.hi && c.lo <= n && !HasRoom(a, b, c)
    ensures PriceAt(a, m) <= PriceAt(b, n)
  {
    hide Snap, Threshold, HasRoom;
    var top, low := RoomOf(a, b, c);
    var p, p' := ScaleTo(a, m, c.hi);
    var q', q := ScaleTo(b, c.lo, n);
    assert p <= top && low <= q;
    if RMax(a, Snap(p) as real) > RMax(b, Snap(q) as real) {
      CrossingNeedsThreshold(a, p, b, q, low);
    }
  }

  /** The scale at which the larger of two amounts meets `t`; the smaller one then stays below. */
  lemma MeetAt(larger: real, smaller: real, t: real) returns (scale: real)
    requires larger > smaller >= 0.0 && t > 0.0
    ensures scale > 0.0 && scale * larger == t && scale * smaller < t
  {
    scale := t / larger;
    QuotientTimes(t, larger);
    Cancel(0.0, scale, larger);
    assert scale * (larger - smaller) > 0.0;
  }

  lemma Reaches(a: real, m: real, hi: real, scale: real, u: real, t: real)
    requires a >= 0.0 && (m == hi || m >= scale * u) && a * hi >= t && scale * (a * u) == t
    ensures a * m >= t
  {
    Times(a, scale, u);
    if m != hi { Scale(a, scale * u, m); }
  }

  lemma StaysUnder(b: real, n: real, lo: real, scale: real, v: real, t: real)
    requires b >= 0.0 && (n == lo || n <= scale * v) && b * lo < t && scale * (b * v) < t
    ensures b * n < t
  {
    Times(b, scale, v);
    if n != lo { Scale(b, n, scale * v); }
  }

  lemma ClampEnds(x: real, c: Clamp)
    requires SoundClamp(c)
    ensures Clamped(x, c) == c.hi || Clamped(x, c) >= RMax(0.0, x)
    ensures Clamped(x, c) == c.lo || Clamped(x, c) <= RMax(0.0, x)
    ensures c.lo <= Clamped(x, c) <= c.hi
  {
  }

  lemma ProductsPositive(b: real, y: real)
    requires b >= 0.0
    ensures b * RMax(0.0, y) >= 0.0
  {
  }

  lemma ReachesClamped(a: real, x: real, c: Clamp, scale: real, t: real)
    requires a >= 0.0 && scale > 0.0 && SoundClamp(c) && a * c.hi >= t && scale * (a * RMax(0.0, x)) == t
    ensures a * ScaledMult(scale, x, c) >= t
  {
    hide RMax, Clamped;
    ScaledSign(scale, x);
    ClampEnds(scale * x, c);
    Reaches(a, Clamped(scale * x, c), c.hi, scale, RMax(0.0, x), t);
  }

  lemma StaysUnderClamped(b: real, y: real, c: Clamp, scale: real, t: real)
    requires b >= 0.0 && scale > 0.0 && SoundClamp(c) && b * c.lo < t && scale * (b * RMax(0.0, y)) < t
    ensures b * ScaledMult(scale, y, c) < t
  {
    hide RMax, Clamped;
    ScaledSign(scale, y);
    ClampEnds(scale * y, c);
    StaysUnder(b, Clamped(scale * y, c), c.lo, scale, RMax(0.0, y), t);
  }

  /** When base times variation falls and the clamp leaves room, some demand makes the price fall. */
  lemma SomeDemandFalls(a: real, b: real, x: real, y: real, c: Clamp) returns (scale: real)
    requires 0.0 <= a <= b && SoundClamp(c) && a * RMax(0.0, x) > b * RMax(0.0, y)
    requires HasRoom(a, b, c)
    ensures scale > 0.0 && PriceAt(a, ScaledMult(scale, x, c)) > PriceAt(b, ScaledMult(scale, y, c))
  {
    hide RMax, ScaledMult, Threshold, PriceAt, HasRoom, SoundClamp;
    var top, low := RoomOf(a, b, c);
    var t := Threshold(b, low);
    ThresholdHolds(b, low);
    ProductsPositive(b, y);
    scale := MeetAt(a * RMax(0.0, x), b * RMax(0.0, y), t as real);
    ReachesClamped(a, x, c, scale, t as real);
    StaysUnderClamped(b, y, c, scale, t as real);
    PriceCrosses(a, ScaledMult(scale, x, c), b, ScaledMult(scale, y, c), t);
  }

  lemma PriceCrosses(a: real, m: real, b: real, n: real, t: int)
    requires (t + 50) % 100 == 0 && b < (t + 50) as real && b * n < t as real <= a * m
    ensures PriceAt(a, m) > PriceAt(b, n)
  {
    hide Snap;
    ThresholdCrosses(a, a * m, b, b * n, t);
  }

  /** The demand multiplier without the variation. */
  function Rest(market: Market, ratio: Ratio, overrides: Overrides): real {
    MarketMult(market.(micro := 1.0)) * OccupancyMult(ratio, OccupancyMults(overrides))
  }

  lemma VariationFactor(market: Market, x: real)
    ensures MarketMult(market.(micro := x)) == MarketMult(market.(micro := 1.0)) * x
  {
    var p := market.season * market.dow * market.event * market.lead * market.city;
    var (s, t, w) := (market.school, market.monsoon, market.longWeekend);
    assert MarketMult(market.(micro := x)) == p * x * s * t * w;
    assert MarketMult(market.(micro := 1.0)) == p * s * t * w;
    Times(p * s * t, w, x);
    Times(p * s, t, x);
    Times(p, s, x);
  }

  lemma RestPositive(market: Market, ratio: Ratio, overrides: Overrides)
    requires PositiveMarket(market) && SoundOverrides(overrides)
    ensures Rest(market, ratio, overrides) > 0.0
  {
    hide MarketMult;
    ProductPositive(market.(micro := 1.0));
    var occupancy := OccupancyMult(ratio, OccupancyMults(overrides));
    assert occupancy > 0.0;
    hide OccupancyMult;
    Scale(MarketMult(market.(micro := 1.0)), 0.0, occupancy);
  }

  /** The surge is one of the two configured multipliers or 1. */
  lemma {:induction false} SurgeIsConfigured(d: C.Date, holidays: seq<Holiday>, longMult: real, holidayMult: real)
    requires C.Valid(d) && forall h :: h in holidays ==> C.Valid(HolidayDate(h, d.year))
    ensures LongWeekendMultFrom(d, holidays, longMult, holidayMult) in [1.0, longMult, holidayMult]
  {
    hide InWindow, WindowFor;
    if holidays != [] { SurgeIsConfigured(d, holidays[1..], longMult, holidayMult); }
  }

  lemma TotalFactors(market: Market, x: real, ratio: Ratio, overrides: Overrides, c: Clamp)
    ensures TotalMult(MarketMult(market.(micro := x)), OccupancyMult(ratio, OccupancyMults(overrides)), c)
         == ScaledMult(Rest(market, ratio, overrides), x, c)
  {
    hide MarketMult, OccupancyMult, OccupancyMults, TotalMult, ScaledMult;
    VariationFactor(market, x);
    Regrouped(MarketMult(market.(micro := x)), MarketMult(market.(micro := 1.0)),
              OccupancyMult(ratio, OccupancyMults(overrides)), x, Rest(market, ratio, overrides), c);
  }

  lemma Regrouped(p: real, q: real, occupancy: real, x: real, rest: real, c: Clamp)
    requires p == q * x && rest == q * occupancy
    ensures TotalMult(p, occupancy, c) == ScaledMult(rest, x, c)
  {
    assert p * occupancy == rest * x;
  }

  /** The demand multiplier at a moment, without the variation. */
  function LiveScale(market: Market, at: Moment, tuning: Tuning, ratio: Ratio, overrides: Overrides): real
    requires C.Valid(at.date)
  {
    GazettedValid(at.date.year);
    var surge := LongWeekendMultFrom(at.date, GAZETTED, tuning.longWeekend, tuning.isolatedHoliday);
    Rest(market.(longWeekend := surge), ratio, overrides)
  }

  lemma LivePriceFactors(
      base: real, market: Market, at: Moment, tuning: Tuning, ratio: Ratio, overrides: Overrides, c: Clamp)
    requires C.Valid(at.date)
    ensures LivePrice(base, market, at, tuning, ratio, overrides, c)
         == PriceAt(base, ScaledMult(
              LiveScale(market, at, tuning, ratio, overrides), MicroMult(base, at, tuning.amplitude), c))
  {
    GazettedValid(at.date.year);
    hide MarketMult, OccupancyMult, OccupancyMults, MicroMult, LongWeekendMultFrom, PriceAt, ScoreAt, FlashAt;
    hide DemandLevelFromScore, TotalMult, ScaledMult, Rest;
    var surge := LongWeekendMultFrom(at.date, GAZETTED, tuning.longWeekend, tuning.isolatedHoliday);
    var x := MicroMult(base, at, tuning.amplitude);
    var m := market.(longWeekend := surge);
    assert Demand(base, market, at, tuning) == m.(micro := x);
    TotalFactors(m, x, ratio, overrides, c);
  }

  lemma SurgePositive(at: Moment, tuning: Tuning) returns (surge: real)
    requires C.Valid(at.date) && tuning.longWeekend > 0.0 && tuning.isolatedHoliday > 0.0
    ensures forall h :: h in GAZETTED ==> C.Valid(HolidayDate(h, at.date.year))
    ensures surge == LongWeekendMultFrom(at.date, GAZETTED, tuning.longWeekend, tuning.isolatedHoliday) && surge > 0.0
  {
    GazettedValid(at.date.year);
    surge := LongWeekendMultFrom(at.date, GAZETTED, tuning.longWeekend, tuning.isolatedHoliday);
    SurgeIsConfigured(at.date, GAZETTED, tuning.longWeekend, tuning.isolatedHoliday);
  }

  lemma LiveScalePositive(market: Market, at: Moment, tuning: Tuning, ratio: Ratio, overrides: Overrides)
    requires C.Valid(at.date) && tuning.longWeekend > 0.0 && tuning.isolatedHoliday > 0.0
    requires PositiveMarket(market) && SoundOverrides(overrides)
    ensures LiveScale(market, at, tuning, ratio, overrides) > 0.0
  {
    hide LongWeekendMultFrom, PositiveBands, Rest;
    var surge := SurgePositive(at, tuning);
    RestPositive(market.(longWeekend := surge), ratio, overrides);
  }

  /** A demand whose multiplier without the variation is `scale`. */
  lemma SomeMarket(scale: real, at: Moment, tuning: Tuning) returns (market: Market)
    requires C.Valid(at.date) && tuning.longWeekend > 0.0 && tuning.isolatedHoliday > 0.0 && scale > 0.0
    ensures PositiveMarket(market) && LiveScale(market, at, tuning, None, None) == scale
  {
    hide LongWeekendMultFrom, OccupancyMults;
    var surge := SurgePositive(at, tuning);
    market := FLAT.(season := scale / surge);
    QuotientTimes(scale, surge);
    Cancel(0.0, scale / surge, surge);
    RestOf(scale / surge, surge);
  }

  lemma RestOf(season: real, surge: real)
    ensures Rest(FLAT.(season := season, longWeekend := surge), None, None) == season * surge
  {
  }

  /** Base times variation does not fall, or the clamp leaves the cheaper base no room to pass the dearer one. */
  predicate CannotFall(a: real, b: real, at: Moment, tuning: Tuning, c: Clamp) {
    Varied(a, at, tuning) <= Varied(b, at, tuning) || !HasRoom(a, b, c)
  }

  lemma PairNeverFalls(a: real, b: real, scale: real, x: real, y: real, c: Clamp)
    requires 0.0 <= a <= b && scale > 0.0 && SoundClamp(c)
    requires a * RMax(0.0, x) <= b * RMax(0.0, y) || !HasRoom(a, b, c)
    ensures PriceAt(a, ScaledMult(scale, x, c)) <= PriceAt(b, ScaledMult(scale, y, c))
  {
    hide PriceAt, RMax, HasRoom, Clamped;
    if a * RMax(0.0, x) <= b * RMax(0.0, y) {
      OrderedPrices(a, b, scale, x, y, c, ScaledMult(scale, x, c), ScaledMult(scale, y, c));
    } else {
      ClampEnds(scale * x, c);
      ClampEnds(scale * y, c);
      NoRoomToCross(a, ScaledMult(scale, x, c), b, ScaledMult(scale, y, c), c);
    }
  }

  /**
   For two bases at the same moment and one clamp, no demand ever makes the dearer one cheaper
   exactly when base times hourly variation does not fall or the clamp leaves no room for it.
   */
  lemma PriceMonotoneInBaseExactly(a: real, b: real, at: Moment, tuning: Tuning, c: Clamp)
    requires C.Valid(at.date) && 0.0 <= a <= b && SoundClamp(c)
    requires tuning.longWeekend > 0.0 && tuning.isolatedHoliday > 0.0
    ensures NeverFalls(a, b, at, tuning, c) <==> CannotFall(a, b, at, tuning, c)
  {
    hide MicroMult, PriceAt, ScaledMult, LiveScale, LivePrice, RMax, PositiveBands, HasRoom;
    var (x, y) := (MicroMult(a, at, tuning.amplitude), MicroMult(b, at, tuning.amplitude));
    if CannotFall(a, b, at, tuning, c) {
      forall market: Market, ratio: Ratio, overrides: Overrides
             | PositiveMarket(market) && SoundOverrides(overrides)
        ensures LivePrice(a, market, at, tuning, ratio, overrides, c)
             <= LivePrice(b, market, at, tuning, ratio, overrides, c)
      {
        LivePriceFactors(a, market, at, tuning, ratio, overrides, c);
        LivePriceFactors(b, market, at, tuning, ratio, overrides, c);
        LiveScalePositive(market, at, tuning, ratio, overrides);
        PairNeverFalls(a, b, LiveScale(market, at, tuning, ratio, overrides), x, y, c);
      }
    } else {
      var scale := SomeDemandFalls(a, b, x, y, c);
      var market := SomeMarket(scale, at, tuning);
      LivePriceFactors(a, market, at, tuning, None, None, c);
      LivePriceFactors(b, market, at, tuning, None, None, c);
      DefaultsSound();
      assert !(LivePrice(a, market, at, tuning, None, None, c) <= LivePrice(b, market, at, tuning, None, None, c));
    }
  }

  /** Leaving the clamp open, too: no demand and no clamp, exactly when base times variation does not fall. */
  lemma PriceMonotoneUnderEveryClamp(a: real, b: real, at: Moment, tuning: Tuning)
    requires C.Valid(at.date) && 0.0 <= a <= b && tuning.longWeekend > 0.0 && tuning.isolatedHoliday > 0.0
    ensures (forall c :: SoundClamp(c) ==> NeverFalls(a, b, at, tuning, c))
       <==> Varied(a, at, tuning) <= Varied(b, at, tuning)
  {
    hide NeverFalls, MicroMult, HasRoom, RMax;
    forall c | SoundClamp(c) ensures NeverFalls(a, b, at, tuning, c) <==> CannotFall(a, b, at, tuning, c) {
      PriceMonotoneInBaseExactly(a, b, at, tuning, c);
    }
    if Varied(a, at, tuning) > Varied(b, at, tuning) {
      ProductsPositive(b, MicroMult(b, at, tuning.amplitude));
      var c := WideClamp(a, b);
      assert !CannotFall(a, b, at, tuning, c);
    }
  }

  /** A clamp that leaves the cheaper base room. */
  lemma WideClamp(a: real, b: real) returns (c: Clamp)
    requires a > 0.0
    ensures SoundClamp(c) && HasRoom(a, b, c)
  {
    hide Threshold, HasRoom;
    var t := Threshold(b, b) as real;
    c := Clamp(1.0, RMax(2.0, t / a));
    QuotientTimes(t, a);
    Scale(a, t / a, c.hi);
    var top, low := RoomOf(a, b, c);
    assert low == b;
  }

  lemma DefaultsSound()
    ensures SoundOverrides(None)
  {
  }

  /** Bases that differ by whole hundreds share their variation, so among them the price never falls. */
  lemma SameEndingNeverFalls(a: real, k: nat, at: Moment, tuning: Tuning, c: Clamp)
    requires C.Valid(at.date) && 0.0 <= a && SoundClamp(c)
    requires tuning.longWeekend > 0.0 && tuning.isolatedHoliday > 0.0
    ensures NeverFalls(a, a + (100 * k) as real, at, tuning, c)
  {
    hide NeverFalls, MicroMult, RMax, HasRoom;
    SameVariation(a, k, at, tuning.amplitude);
    ScaleVaried(a, a + (100 * k) as real, MicroMult(a, at, tuning.amplitude));
    PriceMonotoneInBaseExactly(a, a + (100 * k) as real, at, tuning, c);
  }

  lemma ScaleVaried(a: real, b: real, x: real)
    requires a <= b
    ensures a * RMax(0.0, x) <= b * RMax(0.0, x)
  {
    ScaleBase(a, b, RMax(0.0, x));
  }

  lemma SameVariation(a: real, k: nat, at: Moment, amplitude: Option<real>)
    requires 0.0 <= a
    ensures MicroMult(a + (100 * k) as real, at, amplitude) == MicroMult(a, at, amplitude)
  {
    SameRemainder(a, k);
    hide JsMod;
  }

  lemma SameRemainder(a: real, k: nat)
    requires 0.0 <= a
    ensures JsMod(a + (100 * k) as real, 100.0) == JsMod(a, 100.0)
  {
    var q := a / 100.0;
    assert (a + (100 * k) as real) / 100.0 == q + k as real;
    assert (q + k as real).Floor == q.Floor + k;
  }

  lemma JuneHasNoSurge(d: C.Date, longMult: real, holidayMult: real)
    requires C.Valid(d) && d.month == 6
    ensures forall h :: h in GAZETTED ==> C.Valid(HolidayDate(h, d.year))
    ensures LongWeekendMultFrom(d, GAZETTED, longMult, holidayMult) == 1.0
  {
    GazettedValid(d.year);
    hide LongWeekendMultFrom;
    C.MonthsIncrease(d.year, 1, 6);
    C.MonthsIncrease(d.year, 6, 8);
    C.MonthsIncrease(d.year, 6, 10);
    hide C.Weekday;
    forall h | h in GAZETTED ensures !InWindow(d, h) {
      assert h == GAZETTED[0] || h == GAZETTED[1] || h == GAZETTED[2];
    }
    NoMatch(d, GAZETTED, longMult, holidayMult);
  }

  /** At midnight, on the 9th and in a six-letter city, a base of 1001 sells for less than one of 1000. */
  lemma DearerBaseCanBeCheaper()
    ensures var (at, tuning) := (Moment(C.Date(2026, 6, 9), 0, 6), Tuning(None, 1.20, 1.10));
      var busy := FLAT.(season := 2.0);
      && LivePrice(1000.0, busy, at, tuning, None, None, CLAMP_DEFAULT) == 2100.0
      && LivePrice(1001.0, busy, at, tuning, None, None, CLAMP_DEFAULT) == 2000.0
  {
    hide LongWeekendMultFrom, MicroMult, OccupancyMults, PriceAt, LivePrice;
    var (at, tuning) := (Moment(C.Date(2026, 6, 9), 0, 6), Tuning(None, 1.20, 1.10));
    var busy := FLAT.(season := 2.0);
    MicroSteps(at);
    JuneHasNoSurge(at.date, 1.20, 1.10);
    LivePriceFactors(1000.0, busy, at, tuning, None, None, CLAMP_DEFAULT);
    LivePriceFactors(1001.0, busy, at, tuning, None, None, CLAMP_DEFAULT);
    assert busy.(longWeekend := 1.0) == busy;
    RestOf(2.0, 1.0);
    TwoPrices();
  }

  lemma MicroSteps(at: Moment)
    requires at.date.day == 9 && at.hour == 0 && at.cityLength == 6
    ensures MicroMult(1000.0, at, None) == 1.025 && MicroMult(1001.0, at, None) == 0.985
  {
    assert (1000.0 / 100.0).Floor == 10 && (1001.0 / 100.0).Floor == 10;
    assert (87.0 / 11.0).Floor == 7 && (90.0 / 11.0).Floor == 8;
  }

  lemma TwoPrices()
    ensures PriceAt(1000.0, ScaledMult(2.0, 1.025, CLAMP_DEFAULT)) == 2100.0
    ensures PriceAt(1001.0, ScaledMult(2.0, 0.985, CLAMP_DEFAULT)) == 2000.0
  {
    SnapOf(2050.0, 21);
    SnapOf(1971.97, 20);
    hide Snap;
  }

  // ----- the digits of the formula -----

  /** The built-in occupancy multipliers; a ratio outside [0, 1] counts as its nearer end, a missing one as neutral. */
  lemma OccupancyBands(r: real)
    ensures var mult := OccupancyMult(Some(r), OccupancyMults(None));
      mult == if r < 0.30 then 0.88 else if r < 0.50 then 0.96
              else if r < 0.70 then 1.00 else if r < 0.85 then 1.12 else 1.28
    ensures OccupancyMult(None, OccupancyMults(None)) == 1.0
  {
  }

  /** An override list of five replaces each multiplier it gives a number for; a list of another length nothing. */
  lemma OverridesReplace(overrides: seq<Option<real>>, i: nat)
    requires i < 5
    ensures |overrides| == 5 && overrides[i].Some? ==> OccupancyMults(Some(overrides))[i] == overrides[i].value
    ensures |overrides| != 5 || overrides[i].None? ==> OccupancyMults(Some(overrides))[i] == OccupancyMults(None)[i]
  {
  }

  /** Every one of the nine market multipliers counts: alone against ones it is the whole multiplier. */
  lemma EveryFactorCounts(x: real)
    ensures MarketMult(FLAT.(season := x)) == x && MarketMult(FLAT.(dow := x)) == x
    ensures MarketMult(FLAT.(event := x)) == x
    ensures MarketMult(FLAT.(lead := x)) == x && MarketMult(FLAT.(city := x)) == x && MarketMult(FLAT.(micro := x)) == x
    ensures MarketMult(FLAT.(school := x)) == x && MarketMult(FLAT.(monsoon := x)) == x
    ensures MarketMult(FLAT.(longWeekend := x)) == x
  {
  }

  /** Multiplying a factor multiplies the whole. */
  lemma FirstFactorsMultiply(m: Market, x: real)
    ensures MarketMult(m.(season := m.season * x)) == MarketMult(m) * x
    ensures MarketMult(m.(dow := m.dow * x)) == MarketMult(m) * x
    ensures MarketMult(m.(event := m.event * x)) == MarketMult(m) * x
    ensures MarketMult(m.(lead := m.lead * x)) == MarketMult(m) * x
    ensures MarketMult(m.(city := m.city * x)) == MarketMult(m) * x
  {
  }

  lemma LaterFactorsMultiply(m: Market, x: real)
    ensures MarketMult(m.(micro := m.micro * x)) == MarketMult(m) * x
    ensures MarketMult(m.(school := m.school * x)) == MarketMult(m) * x
    ensures MarketMult(m.(monsoon := m.monsoon * x)) == MarketMult(m) * x
    ensures MarketMult(m.(longWeekend := m.longWeekend * x)) == MarketMult(m) * x
  {
  }

  /**
   The quote: the multiplier is market times occupancy, kept inside the clamp; the price is the base, or
   within 50 of base times multiplier; the score is the multiplier's place in the clamp in percent, to the
   nearest whole; the level and the flash price follow.
   */
  lemma QuoteExact(base: real, market: Market, ratio: Ratio, overrides: Overrides, c: Clamp)
    requires base >= 0.0 && SoundClamp(c)
    ensures var q := CalculateDynamicPrice(base, market, ratio, overrides, c);
      var demand := RawAt(MarketMult(market), OccupancyMult(ratio, OccupancyMults(overrides)));
      && q.multiplier == (if demand < c.lo then c.lo else if demand > c.hi then c.hi else demand)
      && q.price >= base && NearHundred(q.price, base, RawAt(base, q.multiplier))
      && ScoreNear(q.demandScore, q.multiplier, c)
      && NearHundred(q.suggestedFlash, RMax(base * 0.85, q.price * 0.76) - 50.0, RMax(base * 0.85, q.price * 0.76))
      && q.demandLevel == DemandLevelFromScore(q.demandScore as real)
  {
    hide MarketMult, OccupancyMult, OccupancyMults, PriceAt, ScoreAt, FlashAt, ScoreNear, NearHundred;
    hide DemandLevelFromScore, RawAt, TotalMult;
    var q := CalculateDynamicPrice(base, market, ratio, overrides, c);
    KeptInside(MarketMult(market), OccupancyMult(ratio, OccupancyMults(overrides)), c);
    PriceNear(base, q.multiplier);
    ScoreIsNear(q.multiplier, c);
    FlashNear(base, q.price);
  }

  lemma KeptInside(market: real, occupancy: real, c: Clamp)
    requires SoundClamp(c)
    ensures var demand := RawAt(market, occupancy);
      TotalMult(market, occupancy, c) == if demand < c.lo then c.lo else if demand > c.hi then c.hi else demand
  {
  }

  /** `x` is the floor, or the multiple of 100 nearest to `raw`, halves going up. */
  ghost predicate NearHundred(x: real, floor: real, raw: real) {
    x == floor || exists k: int :: x == (100 * k) as real && x - 50.0 <= raw < x + 50.0
  }

  /** The whole number nearest to the multiplier's place between the ends of the clamp, in percent. */
  predicate ScoreNear(score: int, mult: real, c: Clamp) {
    && (c.hi - c.lo) * (score as real - 0.5) <= 100.0 * (mult - c.lo)
    && 100.0 * (mult - c.lo) < (c.hi - c.lo) * (score as real + 0.5)
  }

  lemma PriceNear(base: real, mult: real)
    ensures PriceAt(base, mult) >= base && NearHundred(PriceAt(base, mult), base, RawAt(base, mult))
  {
    var k := SnapSteps(base * mult);
    hide Snap;
    if PriceAt(base, mult) != base { assert PriceAt(base, mult) == (100 * k) as real; }
  }

  lemma FlashNear(base: real, price: real)
    ensures NearHundred(FlashAt(base, price), RMax(base * 0.85, price * 0.76) - 50.0, RMax(base * 0.85, price * 0.76))
  {
    var k := SnapSteps(base * 0.85);
    var j := SnapSteps(price * 0.76);
    hide Snap;
    assert FlashAt(base, price) == (100 * Max(k, j)) as real;
  }

  lemma ScoreIsNear(mult: real, c: Clamp)
    requires SoundClamp(c) && c.lo <= mult <= c.hi
    ensures ScoreNear(ScoreAt(mult, c), mult, c)
  {
    var span := c.hi - c.lo;
    var share := (mult - c.lo) / span;
    ShareOfWhole(mult - c.lo, span);
    RoundedShare(share, span, mult - c.lo);
  }

  lemma RoundedShare(share: real, span: real, part: real)
    requires 0.0 <= share <= 1.0 && span > 0.0 && share * span == part
    ensures var score := ClampScore(share * 100.0);
      span * (score as real - 0.5) <= 100.0 * part && 100.0 * part < span * (score as real + 0.5)
  {
    var score := ClampScore(share * 100.0);
    assert score as real - 0.5 <= share * 100.0 < score as real + 0.5;
    SpanTimes(span, share, part, score as real);
  }

  lemma SpanTimes(span: real, share: real, part: real, score: real)
    requires span > 0.0 && share * span == part && score - 0.5 <= share * 100.0 < score + 0.5
    ensures span * (score - 0.5) <= 100.0 * part && 100.0 * part < span * (score + 0.5)
  {
    var least, middle := ScaleTo(span, score - 0.5, share * 100.0);
    HundredTimes(span, share, part, middle);
    var same, most := ScaleStrictly(span, share * 100.0, score + 0.5);
    HundredTimes(span, share, part, same);
  }

  lemma ScaleStrictly(span: real, x: real, y: real) returns (p: real, q: real)
    requires span > 0.0 && x < y
    ensures p == span * x && q == span * y && p < q
  {
    p, q := span * x, span * y;
    assert span * (y - x) > 0.0;
  }

  lemma HundredTimes(span: real, share: real, part: real, product: real)
    requires share * span == part && product == span * (share * 100.0)
    ensures product == 100.0 * part
  {
  }

  /** The five labels and the three colours, by whole score. */
  lemma LabelsByScore(s: int)
    ensures var level := DemandLevelFromScore(s as real);
      && (level == Surge <==> s >= 88) && (level == VeryHigh <==> 72 <= s && s <= 87)
      && (level == High <==> 52 <= s && s <= 71) && (level == Moderate <==> 32 <= s && s <= 51)
      && (level == Low <==> s <= 31)
    ensures var tier := DemandTierFromScore(s as real);
      && (tier == Red <==> s >= 72) && (tier == Orange <==> 52 <= s && s <= 71) && (tier == Green <==> s <= 51)
  {
  }

  /** For whole bases the hourly variation is one of eleven even steps up to 2.5 percent or the amplitude. */
  lemma VariationSteps(base: nat, at: Moment, percent: real)
    ensures var step := ((base % 100) * 3 + at.hour * 17 + at.cityLength * 7 + at.date.day * 5) % 11 - 5;
      && MicroMult(base as real, at, None) == 1.0 + step as real * 0.005
      && MicroMult(base as real, at, Some(percent)) == 1.0 + step as real / 5.0 * (percent / 100.0)
  {
    hide JsMod;
    var seed := (base % 100) * 3 + at.hour * 17 + at.cityLength * 7 + at.date.day * 5;
    WholeRemainder(base, 100);
    WholeRemainder(seed, 11);
    var step := seed % 11 - 5;
    assert JsMod(base as real, 100.0) * 3.0 + (at.hour * 17 + at.cityLength * 7 + at.date.day * 5) as real
        == seed as real;
    assert JsMod(seed as real, 11.0) - 5.0 == step as real;
  }

  lemma WholeRemainder(n: nat, m: nat)
    requires m == 100 || m == 11
    ensures JsMod(n as real, m as real) == (n % m) as real
  {
    var (q, r) := (n / m, n % m);
    assert n as real / m as real == q as real + r as real / m as real;
    assert (n as real / m as real).Floor == q;
  }

  /** The three gazetted days are always inside their own window: the surge is the long one except on a Wednesday. */
  lemma GazettedDaysSurge(year: nat, longMult: real, holidayMult: real)
    ensures forall d :: d in [C.Date(year, 1, 26), C.Date(year, 8, 15), C.Date(year, 10, 2)] ==>
      C.Valid(d) && (forall h :: h in GAZETTED ==> C.Valid(HolidayDate(h, d.year)))
      && LongWeekendMultFrom(d, GAZETTED, longMult, holidayMult) == if C.Weekday(d) == 3 then holidayMult else longMult
  {
    GazettedValid(year);
    hide LongWeekendMultFrom, C.Weekday;
    forall d | d in [C.Date(year, 1, 26), C.Date(year, 8, 15), C.Date(year, 10, 2)]
      ensures C.Valid(d) && (forall h :: h in GAZETTED ==> C.Valid(HolidayDate(h, d.year)))
      ensures LongWeekendMultFrom(d, GAZETTED, longMult, holidayMult)
           == if C.Weekday(d) == 3 then holidayMult else longMult
    {
      var h := Holiday(d.month, d.day);
      assert GAZETTED[0] in GAZETTED && GAZETTED[1] in GAZETTED && GAZETTED[2] in GAZETTED;
      assert h in GAZETTED && HolidayDate(h, d.year) == d;
      WeekdayRange(d);
      LongWindowHoldsWeekend(C.Weekday(d));
      LongWeekendExact(d, GAZETTED, longMult, holidayMult);
    }
  }

  lemma WeekdayRange(d: C.Date)
    requires C.Valid(d)
    ensures C.Weekday(d) < 7
  {
  }

  /** The weekdays a long window runs between, by the weekday of the holiday (0 is Sunday). */
  lemma WindowDays(w: nat)
    requires w < 7 && w != 3
    ensures var win := WindowFor(w);
      var (first, last) := ((w as int + win.first) % 7, (w as int + win.last) % 7);
      && (w == 4 ==> first == 4 && last == 0)
      && (w == 5 || w == 6 ==> first == 5 && last == 0)
      && (w == 0 || w == 1 ==> first == 6 && last == 1)
      && (w == 2 ==> first == 6 && last == 2)
  {
  }

  /** Days more than three away from every holiday have no surge. */
  lemma FarDaysHaveNone(d: C.Date, longMult: real, holidayMult: real)
    requires C.Valid(d)
    ensures forall h :: h in GAZETTED ==> C.Valid(HolidayDate(h, d.year))
    ensures (forall h :: h in GAZETTED ==>
              C.DayNumber(d) > C.DayNumber(HolidayDate(h, d.year)) + 3
              || C.DayNumber(d) < C.DayNumber(HolidayDate(h, d.year)) - 3)
            ==> LongWeekendMultFrom(d, GAZETTED, longMult, holidayMult) == 1.0
  {
    GazettedValid(d.year);
    hide C.DayNumber, C.Weekday, LongWeekendMultFrom;
    if forall h :: h in GAZETTED ==>
        C.DayNumber(d) > C.DayNumber(HolidayDate(h, d.year)) + 3
        || C.DayNumber(d) < C.DayNumber(HolidayDate(h, d.year)) - 3 {
      NoMatch(d, GAZETTED, longMult, holidayMult);
    }
  }

  /** The computed market: only the variation and the long weekend are replaced, by the values of the moment. */
  lemma DemandReplaces(base: real, market: Market, at: Moment, tuning: Tuning)
    requires C.Valid(at.date)
    ensures forall h :: h in GAZETTED ==> C.Valid(HolidayDate(h, at.date.year))
    ensures Demand(base, market, at, tuning).micro == MicroMult(base, at, tuning.amplitude)
    ensures Demand(base, market, at, tuning).longWeekend
         == LongWeekendMultFrom(at.date, GAZETTED, tuning.longWeekend, tuning.isolatedHoliday)
    ensures Demand(base, market, at, tuning).(micro := market.micro, longWeekend := market.longWeekend) == market
  {
    GazettedValid(at.date.year);
  }
}
