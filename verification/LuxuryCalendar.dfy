/** The date-range picker and its month grid. Dates are day numbers; the grid holds calendar dates. */
module LuxuryCalendar {
  import opened Base
  import opened Calendar

  // ----- month grid -----

  /** What index `i` of the grid holds. */
  function CellAt(year: nat, month: nat, i: nat): Option<Date>
    requires 1 <= month <= 12
  {
    var firstDow := Weekday(Date(year, month, 1));
    if firstDow <= i < firstDow + DaysInMonth(year, month) then Some(Date(year, month, i - firstDow + 1)) else None
  }

  /** Leading blanks, every day of the month, and the fewest trailing blanks that complete a week. */
  ghost predicate IsGrid(year: nat, month: nat, cells: seq<Option<Date>>)
    requires 1 <= month <= 12
  {
    var used := Weekday(Date(year, month, 1)) + DaysInMonth(year, month);
    && |cells| % 7 == 0 && used <= |cells| < used + 7
    && forall i :: 0 <= i < |cells| ==> cells[i] == CellAt(year, month, i)
  }

  method MonthCells(year: nat, month: nat) returns (cells: seq<Option<Date>>)
    requires 1 <= month <= 12
    ensures IsGrid(year, month, cells)
  {
    hide Weekday;
    var firstDow := Weekday(Date(year, month, 1));
    var daysInMonth := DaysInMonth(year, month);
    ghost var used := firstDow + daysInMonth;
    cells := seq(firstDow, _ => None);
    for d := 1 to daysInMonth + 1
      invariant |cells| == firstDow + d - 1
      invariant forall i :: 0 <= i < |cells| ==> cells[i] == CellAt(year, month, i)
    {
      cells := cells + [Some(Date(year, month, d))];
    }
    while |cells| % 7 != 0
      invariant used <= |cells| <= used + (7 - used % 7) % 7
      invariant forall i :: 0 <= i < |cells| ==> cells[i] == CellAt(year, month, i)
      decreases used + 7 - |cells|
    {
      cells := cells + [None];
    }
  }

  /** The grid holds each day of the month once, in order, under its own weekday. */
  lemma GridShowsTheMonth(year: nat, month: nat, cells: seq<Option<Date>>)
    requires 1 <= month <= 12 && IsGrid(year, month, cells)
    ensures forall i :: 0 <= i < |cells| && cells[i].Some? ==> Valid(cells[i].value) && Weekday(cells[i].value) == i % 7
    ensures forall i, j :: 0 <= i < j < |cells| && cells[i].Some? && cells[j].Some? ==>
         cells[i].value.day < cells[j].value.day
    ensures forall d: Date :: Valid(d) && d.year == year && d.month == month ==> Some(d) in cells
  {
    hide Weekday;
    var firstDow := Weekday(Date(year, month, 1));
    forall i | 0 <= i < |cells| && cells[i].Some?
      ensures Valid(cells[i].value) && Weekday(cells[i].value) == i % 7
    {
      DayWeekday(year, month, i - firstDow + 1);
    }
    forall d: Date | Valid(d) && d.year == year && d.month == month ensures Some(d) in cells {
      assert cells[firstDow + d.day - 1] == Some(d);
    }
  }

  lemma DayWeekday(year: nat, month: nat, day: nat)
    requires 1 <= month <= 12 && 1 <= day <= DaysInMonth(year, month)
    ensures Weekday(Date(year, month, 1)) < 7
    ensures Weekday(Date(year, month, day)) == (Weekday(Date(year, month, 1)) + day - 1) % 7
  {
    hide DaysInMonth, DaysBeforeMonth, DaysBeforeYear;
    FirstOfMonthValid(year, month);
    assert DayNumber(Date(year, month, day)) == DayNumber(Date(year, month, 1)) + day - 1;
  }

  lemma FirstOfMonthValid(year: nat, month: nat)
    requires 1 <= month <= 12
    ensures Valid(Date(year, month, 1))
  {
  }

  // ----- picking a range -----

  datatype Mode = CheckIn | CheckOut

  datatype Picker = Picker(draftIn: Option<int>, draftOut: Option<int>, picking: Mode)

  /** What stays fixed while the sheet is open. */
  datatype Props = Props(today: int, minCheckIn: Option<int>)

  datatype Action = DayTap(day: int) | CheckInLeg | CheckOutLeg | Clear

  predicate BelowFloor(props: Props, day: int) {
    props.minCheckIn.Some? && day < props.minCheckIn.value
  }

  function Tapped(p: Picker, props: Props, day: int): Picker {
    if day < props.today then p
    else if p.picking == CheckIn then
      if BelowFloor(props, day) then p
      else Picker(Some(day), if p.draftOut.Some? && p.draftOut.value <= day then None else p.draftOut, CheckOut)
    else if p.draftIn.None? || day <= p.draftIn.value then
      if BelowFloor(props, day) then p else Picker(Some(day), None, CheckOut)
    else p.(draftOut := Some(day))
  }

  function Next(p: Picker, props: Props, a: Action): Picker {
    match a
    case DayTap(day) => Tapped(p, props, day)
    case CheckInLeg => if props.minCheckIn.None? then p.(picking := CheckIn) else p
    case CheckOutLeg => p.(picking := CheckOut)
    case Clear => Picker(None, None, CheckIn)
  }

  /** What apply() hands to the page. */
  function Applied(p: Picker): Option<(int, int)> {
    if p.draftIn.Some? && p.draftOut.Some? then Some((p.draftIn.value, p.draftOut.value))
    else if p.draftIn.Some? then Some((p.draftIn.value, p.draftIn.value + 1))
    else None
  }

  /** The component's state, updated step by step. */
  class Sheet {
    const props: Props
    var draftIn: Option<int>
    var draftOut: Option<int>
    var picking: Mode

    function State(): Picker
      reads this
    {
      Picker(draftIn, draftOut, picking)
    }

    constructor (props: Props, checkIn: Option<int>, checkOut: Option<int>, mode: Mode)
      ensures this.props == props && State() == Picker(checkIn, checkOut, mode)
    {
      this.props := props;
      draftIn, draftOut, picking := checkIn, checkOut, mode;
    }

    method HandleDayTap(day: int)
      modifies this
      ensures State() == Next(old(State()), props, DayTap(day))
    {
      if day < props.today {
        return;
      }
      if picking == CheckIn {
        if props.minCheckIn.Some? && day < props.minCheckIn.value {
          return;
        }
        draftIn := Some(day);
        if draftOut.Some? && draftOut.value <= day {
          draftOut := None;
        }
        picking := CheckOut;
      } else {
        if draftIn.None? || day <= draftIn.value {
          if props.minCheckIn.Some? && day < props.minCheckIn.value {
            return;
          }
          draftIn := Some(day);
          draftOut := None;
          picking := CheckOut;
          return;
        }
        draftOut := Some(day);
      }
    }

    method TapCheckInLeg()
      modifies this
      ensures State() == Next(old(State()), props, CheckInLeg)
    {
      if props.minCheckIn.None? {
        picking := CheckIn;
      }
    }

    method TapCheckOutLeg()
      modifies this
      ensures State() == Next(old(State()), props, CheckOutLeg)
    {
      picking := CheckOut;
    }

    method ClearDrafts()
      modifies this
      ensures State() == Next(old(State()), props, Clear)
    {
      draftIn, draftOut, picking := None, None, CheckIn;
    }

    method Apply() returns (range: Option<(int, int)>)
      ensures range == Applied(State())
    {
      if draftIn.Some? && draftOut.Some? {
        return Some((draftIn.value, draftOut.value));
      } else if draftIn.Some? && draftOut.None? {
        return Some((draftIn.value, draftIn.value + 1));
      }
      return None;
    }
  }

  function Run(p: Picker, props: Props, actions: seq<Action>): Picker
    decreases actions
  {
    if actions == [] then p else Run(Next(p, props, actions[0]), props, actions[1..])
  }

  /** Check-out set implies check-in set and earlier. */
  predicate Ordered(p: Picker) {
    p.draftOut.Some? ==> p.draftIn.Some? && p.draftIn.value < p.draftOut.value
  }

  /**
   From any opening dates whatever, after any run the drafts are ordered or still exactly the opening
   drafts; the check-in is the opening one or lies at or after both today and the floor.
   */
  lemma {:induction false} EveryRun(opening: Picker, props: Props, actions: seq<Action>, p: Picker)
    requires Ordered(p) || (p.draftIn == opening.draftIn && p.draftOut == opening.draftOut)
    requires p.draftIn.Some? && p.draftIn != opening.draftIn ==>
      p.draftIn.value >= props.today && !BelowFloor(props, p.draftIn.value)
    ensures var q := Run(p, props, actions);
      && (Ordered(q) || (q.draftIn == opening.draftIn && q.draftOut == opening.draftOut))
      && (q.draftIn.Some? && q.draftIn != opening.draftIn ==>
           q.draftIn.value >= props.today && !BelowFloor(props, q.draftIn.value))
    decreases actions
  {
    if actions != [] {
      EveryRun(opening, props, actions[1..], Next(p, props, actions[0]));
    }
  }

  /** Apply yields at least one night after every run, if and only if the opening dates were ordered. */
  lemma ApplyGivesANight(opening: Picker, props: Props)
    ensures (forall actions :: var r := Applied(Run(opening, props, actions)); r.Some? ==> r.value.0 < r.value.1)
       <==> !(opening.draftIn.Some? && opening.draftOut.Some? && opening.draftOut.value <= opening.draftIn.value)
  {
    var inverted := opening.draftIn.Some? && opening.draftOut.Some? && opening.draftOut.value <= opening.draftIn.value;
    if inverted {
      assert Run(opening, props, []) == opening;
    } else {
      forall actions ensures var r := Applied(Run(opening, props, actions)); r.Some? ==> r.value.0 < r.value.1 {
        EveryRun(opening, props, actions, opening);
      }
    }
  }

  /** One effective day tap or one clear repairs any opening dates for the rest of the run. */
  lemma RepairLasts(p: Picker, props: Props, a: Action, actions: seq<Action>)
    requires a.Clear? || (a.DayTap? && Next(p, props, a) != p)
    ensures Ordered(Run(Next(p, props, a), props, actions))
  {
    var q := Next(p, props, a);
    OrderedStays(q, props, actions);
  }

  lemma {:induction false} OrderedStays(p: Picker, props: Props, actions: seq<Action>)
    requires Ordered(p)
    ensures Ordered(Run(p, props, actions))
    decreases actions
  {
    if actions != [] {
      OrderedStays(Next(p, props, actions[0]), props, actions[1..]);
    }
  }

  // ----- what taps do -----

  /**
   From a cleared sheet, or with the check-in leg open and no check-out yet, tapping a day on or after
   today and the floor and then a later day picks exactly that stay.
   */
  lemma TwoTapsPickAStay(p: Picker, props: Props, first: int, second: int)
    requires p.picking == CheckIn && p.draftOut.None? && props.today <= first && first < second
    requires props.minCheckIn.None? || props.minCheckIn.value <= first
    ensures Applied(Run(p, props, [DayTap(first), DayTap(second)])) == Some((first, second))
  {
    assert [DayTap(first), DayTap(second)][1..] == [DayTap(second)] && [DayTap(second)][1..] == [];
    assert Run(Next(p, props, DayTap(first)), props, [DayTap(second)])
        == Next(Next(p, props, DayTap(first)), props, DayTap(second));
  }

  /** One tap and apply give one night; without a check-in nothing is handed over. */
  lemma OneTapIsOneNight(p: Picker, props: Props, day: int)
    requires p.picking == CheckIn && p.draftOut.None? && props.today <= day
    requires props.minCheckIn.None? || props.minCheckIn.value <= day
    ensures Applied(Next(p, props, DayTap(day))) == Some((day, day + 1))
    ensures Applied(Next(p, props, Clear)) == None && Next(p, props, Clear).picking == CheckIn
  {
  }

  /** Moving the check-in keeps a later check-out and drops one it reaches; the check-out leg opens. */
  lemma MovingTheCheckIn(p: Picker, props: Props, day: int, out: int)
    requires p.picking == CheckIn && p.draftOut == Some(out) && props.today <= day
    requires props.minCheckIn.None? || props.minCheckIn.value <= day
    ensures var q := Next(p, props, DayTap(day));
      q.draftIn == Some(day) && q.picking == CheckOut && q.draftOut == (if day < out then Some(out) else None)
  {
  }

  /** On the check-out leg a later day is the check-out, and an earlier or equal one starts over as check-in. */
  lemma CheckOutLegTap(p: Picker, props: Props, day: int, checkIn: int)
    requires p.picking == CheckOut && p.draftIn == Some(checkIn) && props.today <= day
    ensures checkIn < day ==> Next(p, props, DayTap(day)) == p.(draftOut := Some(day))
    ensures day <= checkIn && (props.minCheckIn.None? || props.minCheckIn.value <= day)
            ==> Next(p, props, DayTap(day)) == Picker(Some(day), None, CheckOut)
  {
  }

  /** Days before today, and check-ins below the floor, do nothing; a floor locks the check-in leg. */
  lemma DeadTaps(p: Picker, props: Props, day: int)
    ensures day < props.today ==> Next(p, props, DayTap(day)) == p
    ensures props.minCheckIn.Some? && day < props.minCheckIn.value && (p.picking == CheckIn || p.draftIn.None?)
            ==> Next(p, props, DayTap(day)) == p
    ensures Next(p, props, CheckInLeg) == if props.minCheckIn.Some? then p else p.(picking := CheckIn)
    ensures Next(p, props, CheckOutLeg) == p.(picking := CheckOut)
  {
  }
}
