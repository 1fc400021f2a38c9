/**
 Proleptic Gregorian dates, their YYYY-MM-DD text and their running day numbers.
 The availability code compares dates as text; this module shows that for
 four-digit years the text order is the chronological order.
 */
module Calendar {
  import opened Base
  import opened Text

  datatype Date = Date(year: nat, month: nat, day: nat)

  predicate IsLeap(year: nat) {
    year % 4 == 0 && (year % 100 != 0 || year % 400 == 0)
  }

  function DaysInMonth(year: nat, month: nat): nat {
    if month == 2 then (if IsLeap(year) then 29 else 28)
    else if month == 4 || month == 6 || month == 9 || month == 11 then 30
    else 31
  }

  predicate Valid(d: Date) {
    1 <= d.month <= 12 && 1 <= d.day <= DaysInMonth(d.year, d.month)
  }

  predicate FourDigit(d: Date) {
    Valid(d) && d.year <= 9999
  }

  /** setUTCDate(getUTCDate() + 1): the following day, over month and year ends. */
  function NextDay(d: Date): (r: Date)
    requires Valid(d)
    ensures Valid(r)
  {
    if d.day < DaysInMonth(d.year, d.month) then d.(day := d.day + 1)
    else if d.month < 12 then Date(d.year, d.month + 1, 1)
    else Date(d.year + 1, 1, 1)
  }

  // ----- day numbers: whole years, then whole months, then days -----

  function YearLength(year: nat): nat { if IsLeap(year) then 366 else 365 }

  function DaysBeforeYear(year: nat): nat {
    if year == 0 then 0 else DaysBeforeYear(year - 1) + YearLength(year - 1)
  }

  function DaysBeforeMonth(year: nat, month: nat): nat {
    if month <= 1 then 0 else DaysBeforeMonth(year, month - 1) + DaysInMonth(year, month - 1)
  }

  /** Days since 0000-01-01. */
  function DayNumber(d: Date): nat
    requires Valid(d)
  {
    DaysBeforeYear(d.year) + DaysBeforeMonth(d.year, d.month) + d.day - 1
  }

  lemma MonthsFillYear(year: nat)
    ensures DaysBeforeMonth(year, 12) + 31 == YearLength(year)
  {
    assert DaysBeforeMonth(year, 3) == DaysBeforeMonth(year, 2) + DaysInMonth(year, 2);
    assert DaysBeforeMonth(year, 5) == DaysBeforeMonth(year, 3) + 61;
    assert DaysBeforeMonth(year, 7) == DaysBeforeMonth(year, 5) + 61;
    assert DaysBeforeMonth(year, 9) == DaysBeforeMonth(year, 7) + 62;
    assert DaysBeforeMonth(year, 11) == DaysBeforeMonth(year, 9) + 61;
  }

  lemma MonthsIncrease(year: nat, m: nat, n: nat)
    requires 1 <= m < n <= 13
    ensures DaysBeforeMonth(year, m) + DaysInMonth(year, m) <= DaysBeforeMonth(year, n)
  {
  }

  lemma {:induction false} YearsIncrease(y: nat, z: nat)
    requires y < z
    ensures DaysBeforeYear(y) + YearLength(y) <= DaysBeforeYear(z)
  {
    if y < z - 1 { YearsIncrease(y, z - 1); }
  }

  lemma WithinYear(d: Date)
    requires Valid(d)
    ensures DaysBeforeYear(d.year) <= DayNumber(d) < DaysBeforeYear(d.year) + YearLength(d.year)
  {
    MonthsFillYear(d.year);
    if d.month < 12 { MonthsIncrease(d.year, d.month, 12); }
  }

  /** Advancing one calendar day advances the day number by one, at every month end and leap day. */
  lemma NextDayNumber(d: Date)
    requires Valid(d)
    ensures DayNumber(NextDay(d)) == DayNumber(d) + 1
  {
    MonthsFillYear(d.year);
  }

  predicate DateLess(a: Date, b: Date) {
    a.year < b.year
    || (a.year == b.year && (a.month < b.month || (a.month == b.month && a.day < b.day)))
  }

  lemma EarlierHasSmallerNumber(a: Date, b: Date)
    requires Valid(a) && Valid(b) && DateLess(a, b)
    ensures DayNumber(a) < DayNumber(b)
  {
    if a.year < b.year {
      YearsIncrease(a.year, b.year);
      WithinYear(a);
      WithinYear(b);
    } else if a.month < b.month {
      MonthsIncrease(a.year, a.month, b.month);
    }
  }

  lemma NumbersOrderDates(a: Date, b: Date)
    requires Valid(a) && Valid(b)
    ensures DateLess(a, b) <==> DayNumber(a) < DayNumber(b)
    ensures a == b <==> DayNumber(a) == DayNumber(b)
  {
    if DateLess(a, b) {
      EarlierHasSmallerNumber(a, b);
    } else if DateLess(b, a) {
      EarlierHasSmallerNumber(b, a);
    }
  }

  /** The date with day number `n`. */
  function DateAt(n: nat): (d: Date)
    ensures Valid(d) && DayNumber(d) == n
  {
    if n == 0 then
      Date(0, 1, 1)
    else
      NextDayNumber(DateAt(n - 1));
      NextDay(DateAt(n - 1))
  }

  /** getDay(): 0 is Sunday. Day number 0 (0000-01-01) is a Saturday. */
  function Weekday(d: Date): nat
    requires Valid(d)
  {
    (DayNumber(d) + 6) % 7
  }

  // ----- YYYY-MM-DD text -----

  function Pow10(w: nat): nat { if w == 0 then 1 else 10 * Pow10(w - 1) }

  function DigitChar(n: nat): char
    requires n < 10
  {
    ('0' as int + n) as char
  }

  function DigitValue(c: char): nat
    requires IsDigit(c)
  {
    (c as int) - ('0' as int)
  }

  predicate AllDigits(s: string) { forall i :: 0 <= i < |s| ==> IsDigit(s[i]) }

  /** The last `w` decimal digits of `n`, zero-padded. */
  function Digits(n: nat, w: nat): (s: string)
    ensures |s| == w && AllDigits(s)
  {
    if w == 0 then "" else Digits(n / 10, w - 1) + [DigitChar(n % 10)]
  }

  function DigitsValue(s: string): nat
    requires AllDigits(s)
  {
    if s == [] then 0 else 10 * DigitsValue(s[..|s| - 1]) + DigitValue(s[|s| - 1])
  }

  lemma {:induction false} DigitsRoundTrip(n: nat, w: nat)
    requires n < Pow10(w)
    ensures DigitsValue(Digits(n, w)) == n
  {
    if w > 0 {
      DigitsRoundTrip(n / 10, w - 1);
      var s := Digits(n, w);
      assert s[..|s| - 1] == Digits(n / 10, w - 1);
    }
  }

  lemma {:induction false} ValueRoundTrip(s: string)
    requires AllDigits(s)
    ensures DigitsValue(s) < Pow10(|s|) && Digits(DigitsValue(s), |s|) == s
  {
    if s != [] {
      ValueRoundTrip(s[..|s| - 1]);
      assert s == s[..|s| - 1] + [s[|s| - 1]];
    }
  }

  lemma {:induction false} DigitsOrder(m: nat, n: nat, w: nat)
    requires m < Pow10(w) && n < Pow10(w)
    ensures StrLess(Digits(m, w), Digits(n, w)) <==> m < n
    ensures Digits(m, w) == Digits(n, w) <==> m == n
  {
    if w > 0 {
      DigitsOrder(m / 10, n / 10, w - 1);
      StrLessPrefix(Digits(m / 10, w - 1), Digits(n / 10, w - 1), [DigitChar(m % 10)], [DigitChar(n % 10)]);
      DigitsRoundTrip(m, w);
      DigitsRoundTrip(n, w);
    }
  }

  /** toISOString().slice(0, 10) for years 0000-9999. */
  function Iso(d: Date): (s: string)
    ensures |s| == 10
  {
    Digits(d.year, 4) + "-" + Digits(d.month, 2) + "-" + Digits(d.day, 2)
  }

  predicate IsoShape(s: string) {
    |s| == 10 && AllDigits(s[..4]) && s[4] == '-' && AllDigits(s[5..7]) && s[7] == '-' && AllDigits(s[8..])
  }

  /** Reading a date text; None is the invalid Date. */
  function ParseIso(s: string): Option<Date> {
    if !IsoShape(s) then None else
    var d := Date(DigitsValue(s[..4]), DigitsValue(s[5..7]), DigitsValue(s[8..]));
    if Valid(d) then Some(d) else None
  }

  lemma IsoRoundTrip(d: Date)
    requires FourDigit(d)
    ensures ParseIso(Iso(d)) == Some(d)
  {
    var s := Iso(d);
    assert s[..4] == Digits(d.year, 4) && s[5..7] == Digits(d.month, 2) && s[8..] == Digits(d.day, 2);
    assert Pow10(2) == 100 && Pow10(4) == 10000;
    DigitsRoundTrip(d.year, 4);
    DigitsRoundTrip(d.month, 2);
    DigitsRoundTrip(d.day, 2);
  }

  lemma ParseRoundTrip(s: string)
    requires ParseIso(s).Some?
    ensures FourDigit(ParseIso(s).value) && Iso(ParseIso(s).value) == s
  {
    ValueRoundTrip(s[..4]);
    ValueRoundTrip(s[5..7]);
    ValueRoundTrip(s[8..]);
    assert Pow10(4) == 10000;
    assert s == s[..4] + "-" + s[5..7] + "-" + s[8..];
  }

  lemma IsoOrdersDates(a: Date, b: Date)
    requires FourDigit(a) && FourDigit(b)
    ensures StrLess(Iso(a), Iso(b)) <==> DateLess(a, b)
  {
    hide Digits;
    assert Pow10(2) == 100 && Pow10(4) == 10000;
    DigitsOrder(a.year, b.year, 4);
    DigitsOrder(a.month, b.month, 2);
    DigitsOrder(a.day, b.day, 2);
    var (ma, mb) := ("-" + Digits(a.month, 2), "-" + Digits(b.month, 2));
    var (da, db) := ("-" + Digits(a.day, 2), "-" + Digits(b.day, 2));
    StrLessPrefix("-", "-", Digits(a.day, 2), Digits(b.day, 2));
    StrLessPrefix("-", "-", Digits(a.month, 2), Digits(b.month, 2));
    StrLessPrefix(ma, mb, da, db);
    StrLessPrefix(Digits(a.year, 4), Digits(b.year, 4), ma + da, mb + db);
    assert Iso(a) == Digits(a.year, 4) + (ma + da) && Iso(b) == Digits(b.year, 4) + (mb + db);
    assert ma[1..] == Digits(a.month, 2) && mb[1..] == Digits(b.month, 2);
  }

  /** Day number of a date text that parses. */
  function DayOf(s: string): nat
    requires ParseIso(s).Some?
  {
    DayNumber(ParseIso(s).value)
  }

  /** Text order is day order, across month ends, year ends and leap days. */
  lemma TextOrderIsChronological(s: string, t: string)
    requires ParseIso(s).Some? && ParseIso(t).Some?
    ensures StrLess(s, t) <==> DayOf(s) < DayOf(t)
    ensures s == t <==> DayOf(s) == DayOf(t)
  {
    var (a, b) := (ParseIso(s).value, ParseIso(t).value);
    ParseRoundTrip(s);
    ParseRoundTrip(t);
    IsoOrdersDates(a, b);
    NumbersOrderDates(a, b);
  }

  // ----- enumerateDates and rangesOverlap -----

  /** The text of the day with number `n`. */
  function TextAt(n: nat): string { Iso(DateAt(n)) }

  /** The nights of [fromISO, toISO) as text; none when either bound is not a date. */
  function Nights(fromISO: string, toISO: string): seq<string> {
    if ParseIso(fromISO) == None || ParseIso(toISO) == None then []
    else
      var first := DayOf(fromISO);
      seq(Max(0, DayOf(toISO) - first), i requires 0 <= i => TextAt(first + i))
  }

  method EnumerateDates(fromISO: string, toISO: string) returns (out: seq<string>)
    ensures out == Nights(fromISO, toISO)
  {
    hide DayNumber, TextAt, IsoShape;
    out := [];
    var from, to := ParseIso(fromISO), ParseIso(toISO);
    if from == None || to == None {
      return;
    }
    out := EnumerateFrom(from.value, to.value);
  }

  method EnumerateFrom(from: Date, to: Date) returns (out: seq<string>)
    requires Valid(from) && Valid(to)
    ensures |out| == Max(0, DayNumber(to) - DayNumber(from))
    ensures forall i :: 0 <= i < |out| ==> out[i] == TextAt(DayNumber(from) + i)
  {
    hide DayNumber, Iso, Valid, DateLess;
    out := [];
    var d := from;
    ghost var first, last := DayNumber(from), DayNumber(to);
    NumbersOrderDates(d, DateAt(first));
    while DateLess(d, to)
      invariant d == DateAt(first + |out|)
      invariant |out| <= Max(0, last - first)
      invariant forall i :: 0 <= i < |out| ==> out[i] == TextAt(first + i)
      decreases last - first - |out|
    {
      NumbersOrderDates(d, to);
      out := out + [Iso(d)];
      d := NextDay(d);
    }
    NumbersOrderDates(d, to);
  }

  lemma TextAtParses(n: nat, last: Date)
    requires FourDigit(last) && n < DayNumber(last)
    ensures ParseIso(TextAt(n)) == Some(DateAt(n))
  {
    hide DayNumber, ParseIso;
    NumbersOrderDates(DateAt(n), last);
    IsoRoundTrip(DateAt(n));
  }

  /** Every enumerated text is a date whose day number is its position past the first night. */
  lemma NightParses(fromISO: string, toISO: string, i: nat)
    requires i < |Nights(fromISO, toISO)|
    ensures ParseIso(Nights(fromISO, toISO)[i]).Some?
    ensures DayOf(Nights(fromISO, toISO)[i]) == DayOf(fromISO) + i < DayOf(toISO)
  {
    hide DayNumber, ParseIso, TextAt;
    ParseRoundTrip(toISO);
    TextAtParses(DayOf(fromISO) + i, ParseIso(toISO).value);
  }

  /** enumerateDates lists exactly the dates from <= x < to in text order, once each, in order. */
  lemma NightsExact(fromISO: string, toISO: string, x: string)
    requires ParseIso(fromISO).Some? && ParseIso(toISO).Some?
    ensures x in Nights(fromISO, toISO)
            <==> ParseIso(x).Some? && !StrLess(x, fromISO) && StrLess(x, toISO)
    ensures var ns := Nights(fromISO, toISO); forall i, j :: 0 <= i < j < |ns| ==> StrLess(ns[i], ns[j])
  {
    var ns := Nights(fromISO, toISO);
    if x in ns {
      var i :| 0 <= i < |ns| && ns[i] == x;
      NightParses(fromISO, toISO, i);
      TextOrderIsChronological(x, fromISO);
      TextOrderIsChronological(x, toISO);
    } else if ParseIso(x).Some? && !StrLess(x, fromISO) && StrLess(x, toISO) {
      TextOrderIsChronological(x, fromISO);
      TextOrderIsChronological(x, toISO);
      var i := DayOf(x) - DayOf(fromISO);
      NightParses(fromISO, toISO, i);
      TextOrderIsChronological(x, ns[i]);
    }
    forall i, j | 0 <= i < j < |ns| ensures StrLess(ns[i], ns[j]) {
      NightParses(fromISO, toISO, i);
      NightParses(fromISO, toISO, j);
      TextOrderIsChronological(ns[i], ns[j]);
    }
  }

  predicate RangesOverlap(a1: string, a2: string, b1: string, b2: string) {
    StrLess(a1, b2) && StrLess(b1, a2)
  }

  /** Two non-empty ranges overlap exactly when their enumerations share a night. */
  lemma OverlapMeansSharedNight(a1: string, a2: string, b1: string, b2: string)
    requires ParseIso(a1).Some? && ParseIso(a2).Some? && ParseIso(b1).Some? && ParseIso(b2).Some?
    requires StrLess(a1, a2) && StrLess(b1, b2)
    ensures RangesOverlap(a1, a2, b1, b2) <==> exists x :: x in Nights(a1, a2) && x in Nights(b1, b2)
  {
    TextOrderIsChronological(a1, a2);
    TextOrderIsChronological(b1, b2);
    TextOrderIsChronological(a1, b1);
    TextOrderIsChronological(a1, b2);
    TextOrderIsChronological(b1, a2);
    if RangesOverlap(a1, a2, b1, b2) {
      var x := if StrLess(a1, b1) then b1 else a1;
      TextOrderIsChronological(x, a1);
      TextOrderIsChronological(x, b1);
      TextOrderIsChronological(x, a2);
      TextOrderIsChronological(x, b2);
      NightsExact(a1, a2, x);
      NightsExact(b1, b2, x);
    } else if x :| x in Nights(a1, a2) && x in Nights(b1, b2) {
      NightsExact(a1, a2, x);
      NightsExact(b1, b2, x);
      TextOrderIsChronological(x, a1);
      TextOrderIsChronological(x, b1);
      TextOrderIsChronological(x, a2);
      TextOrderIsChronological(x, b2);
    }
  }

  // ----- the Gregorian calendar in figures -----

  /** How many of 0, 1, ..., n - 1 are multiples of `k`. */
  ghost function MultiplesBelow(n: nat, k: nat): nat
    requires k > 0
  {
    if n == 0 then 0 else MultiplesBelow(n - 1, k) + if (n - 1) % k == 0 then 1 else 0
  }

  lemma {:induction false} MultiplesInFigures(n: nat)
    ensures MultiplesBelow(n, 4) == (n + 3) / 4
    ensures MultiplesBelow(n, 100) == (n + 99) / 100
    ensures MultiplesBelow(n, 400) == (n + 399) / 400
  {
    if n > 0 {
      MultiplesInFigures(n - 1);
      CountStep4(n - 1);
      CountStep100(n - 1);
      CountStep400(n - 1);
    }
  }

  lemma CountStep4(n: nat)
    ensures (n + 4) / 4 == (n + 3) / 4 + if n % 4 == 0 then 1 else 0
  {
  }

  lemma CountStep100(n: nat)
    ensures (n + 100) / 100 == (n + 99) / 100 + if n % 100 == 0 then 1 else 0
  {
  }

  lemma CountStep400(n: nat)
    ensures (n + 400) / 400 == (n + 399) / 400 + if n % 400 == 0 then 1 else 0
  {
  }

  /** Closed form: 365 days a year, one more for each leap year before. */
  lemma {:induction false} YearsInFigures(year: nat)
    ensures DaysBeforeYear(year)
         == 365 * year + MultiplesBelow(year, 4) - MultiplesBelow(year, 100) + MultiplesBelow(year, 400)
  {
    hide MultiplesBelow, YearLength;
    if year > 0 {
      YearsInFigures(year - 1);
      LeapStep(year - 1);
    } else {
      NoneBelowZero(year);
    }
  }

  lemma NoneBelowZero(n: nat)
    requires n == 0
    ensures MultiplesBelow(n, 4) == 0 && MultiplesBelow(n, 100) == 0 && MultiplesBelow(n, 400) == 0
  {
  }

  lemma LeapStep(y: nat)
    ensures YearLength(y) - 365
         == MultiplesBelow(y + 1, 4) - MultiplesBelow(y, 4)
            - (MultiplesBelow(y + 1, 100) - MultiplesBelow(y, 100))
            + (MultiplesBelow(y + 1, 400) - MultiplesBelow(y, 400))
  {
    if y % 400 == 0 { MultipleOf(y, 400, 100); }
    if y % 100 == 0 { MultipleOf(y, 100, 4); }
  }

  lemma MultipleOf(y: nat, k: nat, divisor: nat)
    requires (k == 400 && divisor == 100) || (k == 100 && divisor == 4)
    requires y % k == 0
    ensures y % divisor == 0
  {
  }

  /** Thirty days hath September, April, June and November; February has 28, in leap years 29. */
  lemma MonthLengths(year: nat, month: nat)
    requires 1 <= month <= 12
    ensures month in {1, 3, 5, 7, 8, 10, 12} ==> DaysInMonth(year, month) == 31
    ensures month in {4, 6, 9, 11} ==> DaysInMonth(year, month) == 30
    ensures month == 2 && year % 4 == 0 && (year % 100 != 0 || year % 400 == 0) ==> DaysInMonth(year, month) == 29
    ensures month == 2 && (year % 4 != 0 || (year % 100 == 0 && year % 400 != 0)) ==> DaysInMonth(year, month) == 28
  {
  }

  /** Four hundred years are 146097 days, a whole number of weeks, so weekdays repeat with them. */
  lemma CycleOf400(d: Date)
    requires Valid(d)
    ensures var later := d.(year := d.year + 400);
      Valid(later) && DayNumber(later) == DayNumber(d) + 146097 && Weekday(later) == Weekday(d)
  {
    FourCenturies(d.year);
    SameMonths(d.year, d.year + 400, d.month);
    hide DaysBeforeYear, DaysBeforeMonth, IsLeap;
    WeeksOn(DayNumber(d) + 6);
  }

  lemma WeeksOn(n: nat)
    ensures (n + 146097) % 7 == n % 7
  {
    assert 146097 == 7 * 20871;
  }

  lemma FourCenturies(year: nat)
    ensures DaysBeforeYear(year + 400) == DaysBeforeYear(year) + 146097 && IsLeap(year + 400) == IsLeap(year)
  {
    YearsInFigures(year);
    YearsInFigures(year + 400);
    MultiplesInFigures(year);
    MultiplesInFigures(year + 400);
    hide DaysBeforeYear, MultiplesBelow;
    CenturiesOn(year + 3, 4);
    CenturiesOn(year + 99, 100);
    CenturiesOn(year + 399, 400);
    CenturiesOn(year, 4);
    CenturiesOn(year, 100);
    CenturiesOn(year, 400);
  }

  lemma CenturiesOn(n: nat, k: nat)
    requires k in {4, 100, 400}
    ensures (n + 400) / k == n / k + 400 / k && (n + 400) % k == n % k
  {
  }

  lemma {:induction false} SameMonths(year: nat, later: nat, month: nat)
    requires IsLeap(year) == IsLeap(later)
    ensures DaysBeforeMonth(year, month) == DaysBeforeMonth(later, month)
  {
    if month > 1 { SameMonths(year, later, month - 1); }
  }

  lemma NewYearInFigures(d: Date)
    requires d.month == 1 && Valid(d)
    ensures DayNumber(d) == 365 * d.year + (d.year + 3) / 4 - (d.year + 99) / 100 + (d.year + 399) / 400 + d.day - 1
  {
    YearsInFigures(d.year);
    MultiplesInFigures(d.year);
  }

  /** 1 January 1970 was a Thursday, 719528 days after 1 January 0000. */
  lemma KnownDay(d: Date)
    requires d == Date(1970, 1, 1)
    ensures Valid(d) && DayNumber(d) == 719528 && Weekday(d) == 4
  {
    NewYearInFigures(d);
    hide DayNumber;
    assert 719534 == 7 * 102790 + 4;
  }

  /** The text has the year in four digits, then month and day in two, the last digit last. */
  lemma TextOfDate(d: Date)
    requires FourDigit(d)
    ensures var s := Iso(d);
      && s[0] as int == 48 + d.year / 1000 && s[1] as int == 48 + d.year / 100 % 10
      && s[2] as int == 48 + d.year / 10 % 10 && s[3] as int == 48 + d.year % 10 && s[4] == '-'
      && s[5] as int == 48 + d.month / 10 && s[6] as int == 48 + d.month % 10 && s[7] == '-'
      && s[8] as int == 48 + d.day / 10 && s[9] as int == 48 + d.day % 10
  {
    DigitsFour(d.year);
    DigitsTwo(d.month);
    DigitsTwo(d.day);
    hide Digits;
  }

  lemma DigitsTwo(n: nat)
    requires n < 100
    ensures var s := Digits(n, 2); s[0] as int == 48 + n / 10 && s[1] as int == 48 + n % 10
  {
    assert Digits(n / 10 / 10, 0) == "";
    assert Digits(n / 10, 1) == [DigitChar(n / 10 % 10)];
  }

  lemma DigitsFour(n: nat)
    requires n < 10000
    ensures var s := Digits(n, 4);
      && s[0] as int == 48 + n / 1000 && s[1] as int == 48 + n / 100 % 10
      && s[2] as int == 48 + n / 10 % 10 && s[3] as int == 48 + n % 10
  {
    DigitsTwo(n / 10 / 10);
    DigitsSplit(n);
    hide Digits;
    assert n / 10 / 10 == n / 100 && n / 100 / 10 == n / 1000;
  }

  lemma DigitsSplit(n: nat)
    ensures Digits(n, 4) == Digits(n / 10 / 10, 2) + [DigitChar(n / 10 % 10)] + [DigitChar(n % 10)]
  {
    assert Digits(n / 10, 3) == Digits(n / 10 / 10, 2) + [DigitChar(n / 10 % 10)];
  }

  /** Only ten characters of this shape that name a day of the calendar are dates. */
  lemma NoDateElse(s: string)
    ensures |s| != 10 || s[4] != '-' || s[7] != '-' || !IsDigit(s[0]) || !IsDigit(s[5]) || !IsDigit(s[9])
            ==> ParseIso(s).None?
    ensures ParseIso(s).Some? ==> Iso(ParseIso(s).value) == s && FourDigit(ParseIso(s).value)
  {
    if ParseIso(s).Some? {
      ParseRoundTrip(s);
    }
  }
}
