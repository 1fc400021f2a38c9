/** Slab commission rules: what the admin form accepts, which slab applies, what is paid. */
module Commission {
  import opened Base
  import opened Sorting

  datatype Slab = Slab(minBookings: real, maxBookings: real, pct: real)

  datatype LoyaltyBonus = LoyaltyBonus(months: real, bonusPct: real)

  datatype Rule = Rule(slabs: seq<Slab>, loyaltyBonuses: seq<LoyaltyBonus>)

  datatype RuleError = NoSlabs | BadBounds | BadPct | Overlap | BadBonus

  predicate Lower(a: Slab, b: Slab) { a.minBookings < b.minBookings }

  lemma LowerOrders()
    ensures StrictWeakOrder(Lower)
  {
  }

  // ----- validateRule -----

  predicate GoodBounds(s: Slab) { 0.0 <= s.minBookings <= s.maxBookings }

  predicate GoodPct(s: Slab) { 0.0 <= s.pct <= 100.0 }

  predicate GoodBonus(b: LoyaltyBonus) { b.months >= 1.0 && 0.0 <= b.bonusPct <= 100.0 }

  /** No booking count lies in both slabs. */
  predicate Apart(a: Slab, b: Slab) { a.maxBookings < b.minBookings || b.maxBookings < a.minBookings }

  ghost predicate PairwiseApart(slabs: seq<Slab>) {
    forall i, j :: 0 <= i < j < |slabs| ==> Apart(slabs[i], slabs[j])
  }

  ghost predicate GoodSlabs(slabs: seq<Slab>) {
    slabs != [] && (forall s :: s in slabs ==> GoodBounds(s) && GoodPct(s)) && PairwiseApart(slabs)
  }

  ghost predicate GoodRule(rule: Rule) {
    GoodSlabs(rule.slabs) && forall b :: b in rule.loyaltyBonuses ==> GoodBonus(b)
  }

  /** Consecutive slabs of the sorted list do not overlap: the test the code makes. */
  ghost predicate AdjacentApart(sorted: seq<Slab>) {
    forall i :: 1 <= i < |sorted| ==> sorted[i - 1].maxBookings < sorted[i].minBookings
  }

  /** Checking neighbours is enough once the bounds are sane. */
  lemma AdjacentIsPairwise(sorted: seq<Slab>)
    requires Sorted(sorted, Lower) && forall s :: s in sorted ==> GoodBounds(s)
    ensures AdjacentApart(sorted) <==> PairwiseApart(sorted)
  {
    if AdjacentApart(sorted) {
      forall i, j | 0 <= i < j < |sorted| ensures Apart(sorted[i], sorted[j]) {
        ChainApart(sorted, i, j);
      }
    }
    if PairwiseApart(sorted) {
      forall i | 1 <= i < |sorted| ensures sorted[i - 1].maxBookings < sorted[i].minBookings {
        assert GoodBounds(sorted[i - 1]) && GoodBounds(sorted[i]);
        assert Apart(sorted[i - 1], sorted[i]) && !Lower(sorted[i], sorted[i - 1]);
      }
    }
  }

  lemma {:induction false} ChainApart(sorted: seq<Slab>, i: nat, j: nat)
    requires AdjacentApart(sorted) && i < j < |sorted| && forall s :: s in sorted ==> GoodBounds(s)
    ensures sorted[i].maxBookings < sorted[j].minBookings
    decreases j
  {
    if i < j - 1 {
      ChainApart(sorted, i, j - 1);
      assert GoodBounds(sorted[j - 1]);
    }
  }

  lemma ApartPermutes(a: seq<Slab>, b: seq<Slab>)
    requires multiset(a) == multiset(b) && PairwiseApart(a) && forall s :: s in a ==> GoodBounds(s)
    ensures PairwiseApart(b)
  {
    forall i, j | 0 <= i < j < |b| ensures Apart(b[i], b[j]) {
      assert b[i] in multiset(b) && b[j] in multiset(b);
      var m, n :| 0 <= m < |a| && 0 <= n < |a| && a[m] == b[i] && a[n] == b[j];
      if m == n {
        m, n := TwoPlaces(a, b, i, j);
      }
      assert Apart(a[Min(m, n)], a[Max(m, n)]);
    }
  }

  /** Accepts exactly the rules with sane, pairwise disjoint slabs and sane bonuses. */
  method ValidateRule(rule: Rule) returns (error: Option<RuleError>)
    ensures error.None? <==> GoodRule(rule)
    ensures error == Some(Overlap) ==>
      (forall s :: s in rule.slabs ==> GoodBounds(s) && GoodPct(s)) && !PairwiseApart(rule.slabs)
    ensures error == Some(BadBonus) ==> GoodSlabs(rule.slabs)
  {
    if |rule.slabs| == 0 {
      return Some(NoSlabs);
    }
    for i := 0 to |rule.slabs|
      invariant forall k :: 0 <= k < i ==> GoodBounds(rule.slabs[k]) && GoodPct(rule.slabs[k])
    {
      var s := rule.slabs[i];
      if s.minBookings < 0.0 || s.maxBookings < s.minBookings {
        assert s in rule.slabs;
        return Some(BadBounds);
      }
      if s.pct < 0.0 || s.pct > 100.0 {
        assert s in rule.slabs;
        return Some(BadPct);
      }
    }
    var sorted := Sort(rule.slabs, Lower);
    SortedFacts(rule.slabs);
    for i := 1 to |sorted|
      invariant forall k :: 1 <= k < i ==> sorted[k - 1].maxBookings < sorted[k].minBookings
    {
      if sorted[i].minBookings <= sorted[i - 1].maxBookings {
        assert !AdjacentApart(sorted);
        return Some(Overlap);
      }
    }
    assert AdjacentApart(sorted);
    for i := 0 to |rule.loyaltyBonuses|
      invariant forall k :: 0 <= k < i ==> GoodBonus(rule.loyaltyBonuses[k])
    {
      var b := rule.loyaltyBonuses[i];
      if b.months < 1.0 || b.bonusPct < 0.0 || b.bonusPct > 100.0 {
        assert b in rule.loyaltyBonuses;
        return Some(BadBonus);
      }
    }
    return None;
  }

  lemma SortedFacts(slabs: seq<Slab>)
    requires slabs != [] && forall s :: s in slabs ==> GoodBounds(s)
    ensures var sorted := Sort(slabs, Lower);
      |sorted| == |slabs| && (AdjacentApart(sorted) <==> PairwiseApart(slabs))
  {
    hide Sort;
    var sorted := Sort(slabs, Lower);
    LowerOrders();
    SortSorted(slabs, Lower);
    SortMultiset(slabs, Lower);
    SortMembers(slabs, Lower);
    AdjacentIsPairwise(sorted);
    if PairwiseApart(slabs) { ApartPermutes(slabs, sorted); }
    if PairwiseApart(sorted) { ApartPermutes(sorted, slabs); }
  }

  // ----- pickSlab -----

  predicate InSlab(s: Slab, n: real) { s.minBookings <= n <= s.maxBookings }

  function FindCovering(sorted: seq<Slab>, n: real): Option<Slab> {
    if sorted == [] then None
    else if InSlab(sorted[0], n) then Some(sorted[0])
    else FindCovering(sorted[1..], n)
  }

  function PickSlab(slabs: seq<Slab>, n: real): Option<Slab> {
    if slabs == [] then None
    else
      var sorted := Sort(slabs, Lower);
      SortMembers(slabs, Lower);
      var exact := FindCovering(sorted, n);
      if exact.Some? then exact
      else
        var top := sorted[|sorted| - 1];
        if n > top.maxBookings then Some(top) else None
  }

  lemma FindFinds(sorted: seq<Slab>, n: real)
    ensures match FindCovering(sorted, n)
            case Some(s) => s in sorted && InSlab(s, n)
            case None => forall s :: s in sorted ==> !InSlab(s, n)
  {
    if sorted != [] {
      FindFinds(sorted[1..], n);
      assert sorted == [sorted[0]] + sorted[1..];
    }
  }

  /** The slab that covers `n`, or the one above which `n` lies when it is past every maximum. */
  ghost predicate Chosen(slabs: seq<Slab>, n: real, s: Slab) {
    s in slabs && (InSlab(s, n) || (forall t :: t in slabs ==> t.maxBookings < n && t.maxBookings <= s.maxBookings))
  }

  /** For accepted rules the choice is the covering slab, else the top slab past all maxima, else nothing. */
  lemma PickExact(slabs: seq<Slab>, n: real)
    requires GoodSlabs(slabs)
    ensures match PickSlab(slabs, n)
            case Some(s) => Chosen(slabs, n, s)
            case None => forall s :: s in slabs ==> !Chosen(slabs, n, s)
    ensures PickSlab(slabs, n).None?
       <==> (forall s :: s in slabs ==> !InSlab(s, n)) && (exists s :: s in slabs && n < s.minBookings)
  {
    hide Sort;
    var sorted := Sort(slabs, Lower);
    SortedFacts(slabs);
    SortMembers(slabs, Lower);
    FindFinds(sorted, n);
    var top := sorted[|sorted| - 1];
    assert top in sorted;
    forall s | s in slabs ensures s.maxBookings <= top.maxBookings && (s == top || s.maxBookings < top.minBookings) {
      var i :| 0 <= i < |sorted| && sorted[i] == s;
      if i < |sorted| - 1 {
        ChainApart(sorted, i, |sorted| - 1);
        assert GoodBounds(top);
      }
    }
  }

  lemma PairApart(slabs: seq<Slab>, i: nat, j: nat)
    requires PairwiseApart(slabs) && i < |slabs| && j < |slabs|
    ensures i == j || Apart(slabs[i], slabs[j])
  {
    if i < j { assert Apart(slabs[i], slabs[j]); }
    if j < i { assert Apart(slabs[j], slabs[i]); }
  }

  /** At most one slab can be chosen, whatever order the slabs are listed in. */
  lemma ChosenUnique(slabs: seq<Slab>, n: real, s: Slab, t: Slab)
    requires GoodSlabs(slabs) && Chosen(slabs, n, s) && Chosen(slabs, n, t)
    ensures s == t
  {
    var i, j :| 0 <= i < |slabs| && 0 <= j < |slabs| && slabs[i] == s && slabs[j] == t;
    PairApart(slabs, i, j);
    assert GoodBounds(s) && GoodBounds(t);
  }

  /** Listing order is irrelevant for accepted rules. */
  lemma ListingOrderIrrelevant(a: seq<Slab>, b: seq<Slab>, n: real)
    requires GoodSlabs(a) && multiset(a) == multiset(b)
    ensures GoodSlabs(b) && PickSlab(a, n) == PickSlab(b, n)
  {
    SameMembers(a, b);
    ApartPermutes(a, b);
    hide PickSlab, GoodBounds, GoodPct, PairwiseApart;
    PickExact(a, n);
    PickExact(b, n);
    assert forall s :: Chosen(a, n, s) <==> Chosen(b, n, s);
    if PickSlab(a, n).Some? && PickSlab(b, n).Some? {
      ChosenUnique(a, n, PickSlab(a, n).value, PickSlab(b, n).value);
    }
  }

  lemma SameMembers(a: seq<Slab>, b: seq<Slab>)
    requires multiset(a) == multiset(b)
    ensures |a| == |b| && forall s :: s in a <==> s in b
  {
    assert |multiset(a)| == |multiset(b)|;
    forall s ensures s in a <==> s in b {
      assert s in multiset(a) <==> s in multiset(b);
    }
  }

  // ----- loyalty and amount -----

  /** The largest bonus the tally qualifies for; zero when none. */
  ghost predicate BestBonus(bonuses: seq<LoyaltyBonus>, months: real, best: real) {
    && best >= 0.0
    && (forall b :: b in bonuses && months >= b.months ==> b.bonusPct <= best)
    && (best == 0.0 || exists b :: b in bonuses && months >= b.months && b.bonusPct == best)
  }

  function LoyaltyPct(bonuses: seq<LoyaltyBonus>, months: real): real {
    if bonuses == [] then 0.0
    else
      var best := LoyaltyPct(bonuses[..|bonuses| - 1], months);
      var b := bonuses[|bonuses| - 1];
      if months >= b.months && b.bonusPct > best then b.bonusPct else best
  }

  method PickLoyalty(bonuses: seq<LoyaltyBonus>, months: real) returns (best: real)
    ensures best == LoyaltyPct(bonuses, months) && BestBonus(bonuses, months, best)
  {
    best := 0.0;
    for i := 0 to |bonuses|
      invariant best == LoyaltyPct(bonuses[..i], months) && BestBonus(bonuses[..i], months, best)
    {
      var b := bonuses[i];
      assert bonuses[..i + 1][..i] == bonuses[..i];
      TakeStep(bonuses, i);
      if months >= b.months && b.bonusPct > best {
        assert b in bonuses[..i + 1];
        best := b.bonusPct;
      }
    }
    assert bonuses[..|bonuses|] == bonuses;
  }

  lemma {:induction false} LoyaltyNonNegative(bonuses: seq<LoyaltyBonus>, months: real)
    ensures LoyaltyPct(bonuses, months) >= 0.0
  {
    if bonuses != [] { LoyaltyNonNegative(bonuses[..|bonuses| - 1], months); }
  }

  /** A longer streak never earns a smaller bonus. */
  lemma {:induction false} LoyaltyGrows(bonuses: seq<LoyaltyBonus>, m: real, n: real)
    requires m <= n
    ensures LoyaltyPct(bonuses, m) <= LoyaltyPct(bonuses, n)
  {
    if bonuses != [] { LoyaltyGrows(bonuses[..|bonuses| - 1], m, n); }
  }

  datatype Result = Result(slab: Option<Slab>, basePct: real, loyaltyPct: real, totalPct: real, commissionAmount: real)

  /** Rounded to whole paise. */
  function InPaise(x: real): real { Round(x * 100.0) as real / 100.0 }

  /** The exact share. */
  function Portion(amount: real, pct: real): real { amount * (pct / 100.0) }

  /** `pct` percent of `amount`, in whole paise. */
  function Share(amount: real, pct: real): real { InPaise(Portion(amount, pct)) }

  function ComputeCommission(rule: Rule, monthlyBookings: real, consecutiveMonths: real, bookingAmount: real): Result {
    var slab := PickSlab(rule.slabs, monthlyBookings);
    var basePct := if slab.Some? then slab.value.pct else 0.0;
    var loyaltyPct := if slab.Some? then LoyaltyPct(rule.loyaltyBonuses, consecutiveMonths) else 0.0;
    var totalPct := RMin(100.0, basePct + loyaltyPct);
    Result(slab, basePct, loyaltyPct, totalPct, Share(bookingAmount, totalPct))
  }

  /**
   For accepted rules and non-negative amounts in whole paise the commission lies between nothing and
   the whole amount, within half a paisa of the exact share.
   */
  lemma CommissionWithinAmount(rule: Rule, monthlyBookings: real, consecutiveMonths: real, paise: nat)
    requires GoodRule(rule)
    ensures var amount := paise as real / 100.0;
      var r := ComputeCommission(rule, monthlyBookings, consecutiveMonths, amount);
      && 0.0 <= r.totalPct <= 100.0
      && 0.0 <= r.commissionAmount <= amount
      && -0.005 <= Portion(amount, r.totalPct) - r.commissionAmount < 0.005
  {
    hide PickSlab, Share, Portion, LoyaltyPct;
    TotalPctRange(rule, monthlyBookings, consecutiveMonths, paise as real / 100.0);
    ShareWithin(paise, ComputeCommission(rule, monthlyBookings, consecutiveMonths, paise as real / 100.0).totalPct);
  }

  lemma TotalPctRange(rule: Rule, monthlyBookings: real, consecutiveMonths: real, amount: real)
    requires GoodRule(rule)
    ensures 0.0 <= ComputeCommission(rule, monthlyBookings, consecutiveMonths, amount).totalPct <= 100.0
  {
    hide PickSlab, Share, LoyaltyPct;
    PickExact(rule.slabs, monthlyBookings);
    LoyaltyNonNegative(rule.loyaltyBonuses, consecutiveMonths);
    var slab := PickSlab(rule.slabs, monthlyBookings);
    assert slab.Some? ==> slab.value in rule.slabs;
  }

  lemma ShareWithin(paise: nat, pct: real)
    requires 0.0 <= pct <= 100.0
    ensures var amount := paise as real / 100.0;
      0.0 <= Share(amount, pct) <= amount && -0.005 <= Portion(amount, pct) - Share(amount, pct) < 0.005
  {
    hide InPaise, Portion;
    PortionWithin(paise as real / 100.0, pct);
    PaiseNear(Portion(paise as real / 100.0, pct), paise);
  }

  lemma PaiseNear(x: real, paise: nat)
    requires 0.0 <= x <= paise as real / 100.0
    ensures 0.0 <= InPaise(x) <= paise as real / 100.0 && -0.005 <= x - InPaise(x) < 0.005
  {
  }

  lemma PortionWithin(amount: real, pct: real)
    requires amount >= 0.0 && 0.0 <= pct <= 100.0
    ensures 0.0 <= Portion(amount, pct) <= amount
  {
    Fraction(amount, pct / 100.0);
  }

  lemma Fraction(amount: real, f: real)
    requires amount >= 0.0 && 0.0 <= f <= 1.0
    ensures 0.0 <= amount * f <= amount
  {
  }

  /** No slab, no commission. */
  lemma NothingBelowSlabs(rule: Rule, monthlyBookings: real, consecutiveMonths: real, bookingAmount: real)
    requires GoodRule(rule) && forall s :: s in rule.slabs ==> monthlyBookings < s.minBookings
    ensures ComputeCommission(rule, monthlyBookings, consecutiveMonths, bookingAmount).commissionAmount == 0.0
  {
    hide PickSlab, Share;
    PickExact(rule.slabs, monthlyBookings);
    assert rule.slabs[0] in rule.slabs;
    ShareOfNothing(bookingAmount);
  }

  lemma ShareOfNothing(amount: real)
    ensures Share(amount, 0.0) == 0.0
  {
    assert 0.0 / 100.0 == 0.0;
    assert amount * 0.0 == 0.0;
  }

  // ----- what is paid -----

  lemma {:induction false} LoyaltyIsBest(bonuses: seq<LoyaltyBonus>, months: real)
    ensures BestBonus(bonuses, months, LoyaltyPct(bonuses, months))
  {
    if bonuses != [] {
      var (init, b) := (bonuses[..|bonuses| - 1], bonuses[|bonuses| - 1]);
      LoyaltyIsBest(init, months);
      assert bonuses == init + [b];
      assert b in bonuses;
    }
  }

  /**
   For an accepted rule the chosen slab's percentage and the best bonus the streak has earned add up, to
   at most 100; the commission is that share of the amount to the nearest paisa, halves going up.
   */
  lemma CommissionExact(
      rule: Rule, monthlyBookings: real, consecutiveMonths: real, bookingAmount: real, s: Slab, bonus: real)
    requires GoodRule(rule) && Chosen(rule.slabs, monthlyBookings, s)
    requires BestBonus(rule.loyaltyBonuses, consecutiveMonths, bonus)
    ensures var r := ComputeCommission(rule, monthlyBookings, consecutiveMonths, bookingAmount);
      var percent := if s.pct + bonus > 100.0 then 100.0 else s.pct + bonus;
      && r.slab == Some(s) && r.basePct == s.pct && r.loyaltyPct == bonus && r.totalPct == percent
      && NearestPaise(r.commissionAmount, bookingAmount, percent)
  {
    hide PickSlab, Share, LoyaltyPct, NearestPaise;
    PickExact(rule.slabs, monthlyBookings);
    var picked := PickSlab(rule.slabs, monthlyBookings);
    if picked.Some? { ChosenUnique(rule.slabs, monthlyBookings, s, picked.value); }
    LoyaltyIsBest(rule.loyaltyBonuses, consecutiveMonths);
    var r := ComputeCommission(rule, monthlyBookings, consecutiveMonths, bookingAmount);
    ShareIsNearest(bookingAmount, r.totalPct);
  }

  /** A whole number of paise within half a paisa of the percentage of the amount. */
  ghost predicate NearestPaise(commission: real, amount: real, percent: real) {
    exists paise: int :: WithinHalf(paise, commission, amount, percent)
  }

  ghost predicate WithinHalf(paise: int, commission: real, amount: real, percent: real) {
    commission * 100.0 == paise as real
    && paise as real - 0.5 <= amount * percent && amount * percent < paise as real + 0.5
  }

  lemma ShareIsNearest(amount: real, percent: real)
    ensures NearestPaise(Share(amount, percent), amount, percent)
  {
    PortionTimes(amount, percent);
    var paise := PaiseOf(Portion(amount, percent));
    hide Portion, InPaise;
    assert WithinHalf(paise, Share(amount, percent), amount, percent);
  }

  lemma PaiseOf(x: real) returns (paise: int)
    ensures InPaise(x) * 100.0 == paise as real && paise as real - 0.5 <= x * 100.0 < paise as real + 0.5
  {
    paise := Round(x * 100.0);
  }

  lemma PortionTimes(amount: real, percent: real)
    ensures Portion(amount, percent) * 100.0 == amount * percent
  {
  }

  /** In a gap between slabs, and below the lowest, there is no slab, no bonus and no commission. */
  lemma NothingWithoutSlab(rule: Rule, monthlyBookings: real, consecutiveMonths: real, bookingAmount: real)
    requires GoodRule(rule) && forall s :: s in rule.slabs ==> !Chosen(rule.slabs, monthlyBookings, s)
    ensures ComputeCommission(rule, monthlyBookings, consecutiveMonths, bookingAmount)
         == Result(None, 0.0, 0.0, 0.0, 0.0)
  {
    hide PickSlab, Share;
    PickExact(rule.slabs, monthlyBookings);
    ShareOfNothing(bookingAmount);
  }

  // ----- what an accepted rule is, part by part -----

  /** Adding a slab keeps slabs acceptable exactly when its bounds and percentage are sane and it meets none of them. */
  lemma AddingSlab(slabs: seq<Slab>, s: Slab)
    ensures GoodSlabs(slabs + [s]) <==>
      && (slabs == [] || GoodSlabs(slabs))
      && 0.0 <= s.minBookings && s.minBookings <= s.maxBookings && 0.0 <= s.pct && s.pct <= 100.0
      && (forall t :: t in slabs ==> t.maxBookings < s.minBookings || s.maxBookings < t.minBookings)
  {
    var all := slabs + [s];
    if GoodSlabs(all) {
      forall i, j | 0 <= i < j < |slabs| ensures Apart(slabs[i], slabs[j]) {
        assert Apart(all[i], all[j]);
      }
      forall t | t in slabs ensures Apart(t, s) && GoodBounds(t) && GoodPct(t) {
        var i :| 0 <= i < |slabs| && slabs[i] == t;
        assert t in all && Apart(all[i], all[|slabs|]);
      }
      assert s in all;
    }
  }

  /** Adding a bonus keeps a rule acceptable exactly when it asks for a month at least and adds 0 to 100 percent. */
  lemma AddingBonus(rule: Rule, b: LoyaltyBonus)
    ensures GoodRule(rule.(loyaltyBonuses := rule.loyaltyBonuses + [b]))
       <==> GoodRule(rule) && b.months >= 1.0 && 0.0 <= b.bonusPct && b.bonusPct <= 100.0
    ensures GoodRule(Rule(rule.slabs, [])) <==> GoodSlabs(rule.slabs)
  {
    var all := rule.loyaltyBonuses + [b];
    if GoodRule(rule.(loyaltyBonuses := all)) {
      assert b in all;
      forall c | c in rule.loyaltyBonuses ensures GoodBonus(c) { assert c in all; }
    }
  }
}
