/**
 The iCal feed reader: unfold (section 3.1 of RFC 5545), split into lines, collect VEVENTs.
 The partner is a printer of calendars with arbitrary folding; reading undoes printing.
 */
module ICal {
  import opened Base
  import opened Text
  import Calendar

  datatype Event = Event(uid: Option<string>, start: Option<string>, end: Option<string>, summary: Option<string>)

  const NO_FIELDS := Event(None, None, None, None)
  const BEGIN := "BEGIN:VEVENT"
  const END := "END:VEVENT"

  // ----- the reader -----

  predicate IsBlank(c: char) { c == ' ' || c == '\t' }

  /** text.replace(/\r?\n[ \t]/g, "") */
  function Unfold(s: string): string {
    if s == [] then []
    else if |s| >= 3 && s[0] == '\r' && s[1] == '\n' && IsBlank(s[2]) then Unfold(s[3..])
    else if |s| >= 2 && s[0] == '\n' && IsBlank(s[1]) then Unfold(s[2..])
    else [s[0]] + Unfold(s[1..])
  }

  /** split(/\r?\n/) */
  function Lines(s: string): (r: seq<string>)
    ensures r != []
  {
    if s == [] then [""]
    else if |s| >= 2 && s[0] == '\r' && s[1] == '\n' then [""] + Lines(s[2..])
    else if s[0] == '\n' then [""] + Lines(s[1..])
    else
      var rest := Lines(s[1..]);
      [[s[0]] + rest[0]] + rest[1..]
  }

  function SkipDash(s: string): string {
    if s != [] && s[0] == '-' then s[1..] else s
  }

  /** The regex \d{4}-?\d{2}-?\d{2} at the start of `s`, rewritten with dashes. */
  function DateHere(s: string): Option<string> {
    if !(|s| >= 4 && Calendar.AllDigits(s[..4])) then None else
    var m := SkipDash(s[4..]);
    if !(|m| >= 2 && Calendar.AllDigits(m[..2])) then None else
    var d := SkipDash(m[2..]);
    if !(|d| >= 2 && Calendar.AllDigits(d[..2])) then None else
    Some(s[..4] + "-" + m[..2] + "-" + d[..2])
  }

  /** The leftmost match in `s`. */
  function IcalDate(s: string): Option<string> {
    if DateHere(s).Some? then DateHere(s)
    else if s == [] then None
    else IcalDate(s[1..])
  }

  function Assign(e: Event, key: string, val: string): Event {
    if key == "UID" then e.(uid := Some(val))
    else if key == "DTSTART" then e.(start := IcalDate(val))
    else if key == "DTEND" then e.(end := IcalDate(val))
    else if key == "SUMMARY" then e.(summary := Some(val))
    else e
  }

  datatype Reader = Reader(cur: Option<Event>, events: seq<Event>)

  function Read(r: Reader, raw: string): Reader {
    if raw == BEGIN then r.(cur := Some(NO_FIELDS))
    else if raw == END then
      Reader(None, if r.cur.Some? then r.events + [r.cur.value] else r.events)
    else if r.cur.Some? then
      match IndexOf(raw, ":")
      case None => r
      case Some(idx) => r.(cur := Some(Assign(r.cur.value, Upper(UpTo(raw[..idx], ';')), Trim(raw[idx + 1..]))))
    else r
  }

  function ReadAll(r: Reader, lines: seq<string>): Reader
    decreases lines
  {
    if lines == [] then r else ReadAll(Read(r, lines[0]), lines[1..])
  }

  /** The events a text holds: the reading of its unfolded lines. */
  function Parsed(text: string): seq<Event> {
    ReadAll(Reader(None, []), Lines(Unfold(text))).events
  }

  lemma {:induction false} ReadAllConcat(r: Reader, a: seq<string>, b: seq<string>)
    ensures ReadAll(r, a + b) == ReadAll(ReadAll(r, a), b)
    decreases a
  {
    if a == [] {
      assert a + b == b;
    } else {
      assert (a + b)[1..] == a[1..] + b;
      ReadAllConcat(Read(r, a[0]), a[1..], b);
    }
  }

  method ParseICal(text: string) returns (events: seq<Event>)
    ensures events == Parsed(text)
  {
    events := [];
    if text == "" {
      return;
    }
    var lines := Lines(Unfold(text));
    var cur: Option<Event> := None;
    ghost var start := Reader(None, []);
    for i := 0 to |lines|
      invariant Reader(cur, events) == ReadAll(start, lines[..i])
    {
      var raw := lines[i];
      TakeStep(lines, i);
      ReadAllConcat(start, lines[..i], [raw]);
      assert ReadAll(Reader(cur, events), [raw]) == Read(Reader(cur, events), raw);
      if raw == "BEGIN:VEVENT" {
        cur := Some(NO_FIELDS);
      } else if raw == "END:VEVENT" {
        if cur.Some? { events := events + [cur.value]; }
        cur := None;
      } else if cur.Some? {
        var idx := IndexOf(raw, ":");
        if idx.None? { continue; }
        var key := Upper(UpTo(raw[..idx.value], ';'));
        var val := Trim(raw[idx.value + 1..]);
        if key == "UID" { cur := Some(cur.value.(uid := Some(val))); }
        else if key == "DTSTART" { cur := Some(cur.value.(start := IcalDate(val))); }
        else if key == "DTEND" { cur := Some(cur.value.(end := IcalDate(val))); }
        else if key == "SUMMARY" { cur := Some(cur.value.(summary := Some(val))); }
      }
    }
    assert lines[..|lines|] == lines;
  }

  // ----- physical text: folds and line ends -----

  /** One fold: an optional CR, LF, then one space or tab. */
  datatype Fold = Fold(cr: bool, tab: bool)

  function FoldText(f: Fold): string {
    (if f.cr then "\r\n" else "\n") + (if f.tab then "\t" else " ")
  }

  function FoldTexts(fs: seq<Fold>): string {
    if fs == [] then "" else FoldText(fs[0]) + FoldTexts(fs[1..])
  }

  /** The line with the folds folds[i] inserted before its character i. */
  function FoldLine(line: string, folds: seq<seq<Fold>>): string {
    if line == [] then ""
    else (if folds == [] then "" else FoldTexts(folds[0]))
         + [line[0]] + FoldLine(line[1..], if folds == [] then [] else folds[1..])
  }

  datatype Physical = Physical(line: string, folds: seq<seq<Fold>>, crlf: bool)

  function Eol(crlf: bool): string { if crlf then "\r\n" else "\n" }

  function Render(ps: seq<Physical>): string {
    if ps == [] then "" else FoldLine(ps[0].line, ps[0].folds) + Eol(ps[0].crlf) + Render(ps[1..])
  }

  function LogicalLines(ps: seq<Physical>): (r: seq<string>)
    ensures |r| == |ps| && forall i :: 0 <= i < |ps| ==> r[i] == ps[i].line
  {
    seq(|ps|, i requires 0 <= i < |ps| => ps[i].line)
  }

  predicate NoBreaks(s: string) { '\r' !in s && '\n' !in s }

  predicate CleanLine(line: string) {
    NoBreaks(line) && (line == [] || !IsBlank(line[0]))
  }

  lemma {:induction false} UnfoldFolds(fs: seq<Fold>, rest: string)
    ensures Unfold(FoldTexts(fs) + rest) == Unfold(rest)
  {
    if fs == [] {
      assert FoldTexts(fs) + rest == rest;
    } else {
      var (f, tail) := (FoldText(fs[0]), FoldTexts(fs[1..]) + rest);
      assert FoldTexts(fs) + rest == f + tail;
      assert (f + tail)[|f|..] == tail;
      UnfoldFolds(fs[1..], rest);
    }
  }

  lemma UnfoldChar(c: char, rest: string)
    requires c != '\r' && c != '\n'
    ensures Unfold([c] + rest) == [c] + Unfold(rest)
  {
    assert ([c] + rest)[1..] == rest;
  }

  lemma {:induction false} UnfoldLine(line: string, folds: seq<seq<Fold>>, rest: string)
    requires NoBreaks(line)
    ensures Unfold(FoldLine(line, folds) + rest) == line + Unfold(rest)
  {
    hide Unfold, FoldTexts;
    if line == [] {
      assert FoldLine(line, folds) + rest == rest;
      assert line + Unfold(rest) == Unfold(rest);
    } else {
      var later := if folds == [] then [] else folds[1..];
      var fs := if folds == [] then [] else folds[0];
      var tail := FoldLine(line[1..], later) + rest;
      NoFold();
      assert FoldLine(line, folds) + rest == FoldTexts(fs) + ([line[0]] + tail);
      UnfoldFolds(fs, [line[0]] + tail);
      UnfoldChar(line[0], tail);
      UnfoldLine(line[1..], later, rest);
      assert line + Unfold(rest) == [line[0]] + (line[1..] + Unfold(rest));
    }
  }

  lemma NoFold()
    ensures FoldTexts([]) == ""
  {
  }

  lemma UnfoldEol(crlf: bool, rest: string)
    requires rest == [] || !IsBlank(rest[0])
    ensures Unfold(Eol(crlf) + rest) == Eol(crlf) + Unfold(rest)
  {
    var t := Eol(crlf) + rest;
    assert ("\n" + rest)[1..] == rest;
    if crlf {
      assert t[1..] == "\n" + rest;
      assert Unfold(t) == ['\r'] + Unfold("\n" + rest);
      assert Eol(crlf) + Unfold(rest) == ['\r'] + (['\n'] + Unfold(rest));
    }
  }

  lemma RenderStartsUnblank(ps: seq<Physical>)
    requires forall p :: p in ps ==> CleanLine(p.line)
    ensures Render(ps) == [] || !IsBlank(Render(ps)[0])
  {
    if ps != [] && ps[0].line != [] && ps[0].folds != [] && ps[0].folds[0] != [] {
      assert FoldTexts(ps[0].folds[0])[0] == FoldText(ps[0].folds[0][0])[0];
    }
  }

  lemma {:induction false} SplitLine(line: string, crlf: bool, rest: string)
    requires NoBreaks(line)
    ensures Lines(line + Eol(crlf) + rest) == [line] + Lines(rest)
  {
    var t := line + Eol(crlf) + rest;
    if line == [] {
      assert t == Eol(crlf) + rest;
      assert t[|Eol(crlf)|..] == rest;
    } else {
      assert t[1..] == line[1..] + Eol(crlf) + rest;
      SplitLine(line[1..], crlf, rest);
      assert line == [line[0]] + line[1..];
    }
  }

  lemma EmptyText()
    ensures Lines(Unfold("")) == [""]
  {
  }

  /** Whatever the folding and the line ends, reading recovers the logical lines. */
  lemma {:induction false} UnfoldingRecoversLines(ps: seq<Physical>)
    requires forall p :: p in ps ==> CleanLine(p.line)
    ensures Lines(Unfold(Render(ps))) == LogicalLines(ps) + [""]
  {
    hide Unfold, Lines, FoldLine, Eol;
    if ps == [] {
      EmptyText();
    } else {
      var (p, rest) := (ps[0], Render(ps[1..]));
      RenderStartsUnblank(ps[1..]);
      assert Render(ps) == FoldLine(p.line, p.folds) + (Eol(p.crlf) + rest);
      UnfoldLine(p.line, p.folds, Eol(p.crlf) + rest);
      UnfoldEol(p.crlf, rest);
      assert p.line + (Eol(p.crlf) + Unfold(rest)) == p.line + Eol(p.crlf) + Unfold(rest);
      SplitLine(p.line, p.crlf, Unfold(rest));
      UnfoldingRecoversLines(ps[1..]);
      assert LogicalLines(ps) == [p.line] + LogicalLines(ps[1..]);
    }
  }

  // ----- printing events -----

  /** A content line NAME;params:value, with white space allowed around the value. */
  datatype Property = Property(name: string, params: string, lead: string, value: string, trail: string)

  function PropertyLine(p: Property): string { p.name + p.params + ":" + (p.lead + p.value + p.trail) }

  predicate GoodProperty(p: Property) {
    && p.name != [] && !IsBlank(p.name[0]) && ':' !in p.name && ';' !in p.name && NoBreaks(p.name)
    && (p.params == [] || p.params[0] == ';') && ':' !in p.params && NoBreaks(p.params)
    && NoBreaks(p.value) && Trimmed(p.value)
    && NoBreaks(p.lead) && AllSpace(p.lead) && NoBreaks(p.trail) && AllSpace(p.trail)
  }

  /** A line inside an event: a property, or a line without a colon, which says nothing. */
  datatype Line = Content(property: Property) | Noise(text: string)

  function LineText(l: Line): string {
    match l case Content(p) => PropertyLine(p) case Noise(text) => text
  }

  predicate GoodLine(l: Line) {
    LineText(l) != "BEGIN:VEVENT" && LineText(l) != "END:VEVENT"
    && match l case Content(p) => GoodProperty(p) case Noise(text) => CleanLine(text) && ':' !in text
  }

  predicate Named(l: Line, key: string) { l.Content? && Upper(l.property.name) == key }

  /** A date value: anything without digits, YYYYMMDD with or without either dash, then anything. */
  datatype DateValue = DateValue(lead: string, date: Calendar.Date, dash1: bool, dash2: bool, tail: string)

  predicate NoDigits(s: string) { forall i :: 0 <= i < |s| ==> !IsDigit(s[i]) }

  function Dash(dashed: bool): string { if dashed then "-" else "" }

  function DateText(v: DateValue): string {
    v.lead + (Calendar.Digits(v.date.year, 4) + Dash(v.dash1) + Calendar.Digits(v.date.month, 2) + Dash(v.dash2)
              + Calendar.Digits(v.date.day, 2) + v.tail)
  }

  /** An event with what it states; each of the four may be missing. */
  datatype VEvent = VEvent(
    uid: Option<string>, summary: Option<string>, start: Option<DateValue>, end: Option<DateValue>)

  /** Line `i` is the last of this name. */
  predicate IsLast(lines: seq<Line>, key: string, i: int) {
    0 <= i < |lines| && Named(lines[i], key) && forall j :: i < j < |lines| ==> !Named(lines[j], key)
  }

  ghost predicate Unnamed(lines: seq<Line>, key: string) {
    forall j :: 0 <= j < |lines| ==> !Named(lines[j], key)
  }

  /** The last property of this name, in any case, carries the value; or there is no such property. */
  ghost predicate Spells(lines: seq<Line>, key: string, value: Option<string>) {
    match value
    case None => Unnamed(lines, key)
    case Some(v) => exists i :: IsLast(lines, key, i) && lines[i].property.value == v
  }

  /** Likewise for a date; a date is missing, too, when the last such property holds no digit. */
  ghost predicate SpellsDate(lines: seq<Line>, key: string, date: Option<DateValue>) {
    match date
    case None => Unnamed(lines, key) || exists i :: IsLast(lines, key, i) && NoDigits(lines[i].property.value)
    case Some(v) => NoDigits(v.lead) && Spells(lines, key, Some(DateText(v)))
  }

  /** Lines that state the event: in any order, with any parameters, any other properties and repeats. */
  ghost predicate GoodEvent(e: VEvent, lines: seq<Line>) {
    && (forall l :: l in lines ==> GoodLine(l))
    && Spells(lines, "UID", e.uid) && Spells(lines, "SUMMARY", e.summary)
    && SpellsDate(lines, "DTSTART", e.start) && SpellsDate(lines, "DTEND", e.end)
  }

  function Texts(lines: seq<Line>): (r: seq<string>)
    ensures |r| == |lines| && forall i :: 0 <= i < |lines| ==> r[i] == LineText(lines[i])
  {
    seq(|lines|, i requires 0 <= i < |lines| => LineText(lines[i]))
  }

  /** A calendar: events, events broken off before their end, and lines outside any event. */
  datatype Item = Outside(line: string) | Inside(event: VEvent, lines: seq<Line>) | Broken(lines: seq<Line>)

  ghost predicate GoodItem(item: Item) {
    match item
    case Outside(line) => CleanLine(line) && line != "BEGIN:VEVENT"
    case Inside(e, lines) => GoodEvent(e, lines)
    case Broken(lines) => forall l :: l in lines ==> GoodLine(l)
  }

  /** Good items, and after a broken event the next event begins or the text ends. */
  ghost predicate GoodCalendar(items: seq<Item>) {
    && (forall i :: 0 <= i < |items| ==> GoodItem(items[i]))
    && (forall i :: 0 <= i < |items| - 1 && items[i].Broken? ==> !items[i + 1].Outside?)
  }

  function ItemLines(item: Item): seq<string> {
    match item
    case Outside(line) => [line]
    case Inside(_, lines) => ["BEGIN:VEVENT"] + Texts(lines) + ["END:VEVENT"]
    case Broken(lines) => ["BEGIN:VEVENT"] + Texts(lines)
  }

  function CalendarLines(items: seq<Item>): seq<string> {
    if items == [] then [] else ItemLines(items[0]) + CalendarLines(items[1..])
  }

  function DashedDate(v: Option<DateValue>): Option<string> {
    match v case None => None case Some(d) => Some(Calendar.Iso(d.date))
  }

  /** The reading promised for an event: what it states, with dashed dates. */
  function Meaning(e: VEvent): Event {
    Event(e.uid, DashedDate(e.start), DashedDate(e.end), e.summary)
  }

  function Meanings(items: seq<Item>): seq<Event> {
    if items == [] then []
    else (if items[0].Inside? then [Meaning(items[0].event)] else []) + Meanings(items[1..])
  }

  // ----- reading what was printed -----

  lemma DatePartsRead(y: string, dash1: string, m: string, dash2: string, d: string, tail: string)
    requires |y| == 4 && |m| == 2 && |d| == 2
    requires Calendar.AllDigits(y) && Calendar.AllDigits(m) && Calendar.AllDigits(d)
    requires (dash1 == "" || dash1 == "-") && (dash2 == "" || dash2 == "-")
    ensures DateHere(y + dash1 + m + dash2 + d + tail) == Some(y + "-" + m + "-" + d)
  {
    var rest := d + tail;
    var afterYear := m + (dash2 + rest);
    var s := y + (dash1 + afterYear);
    assert y + dash1 + m + dash2 + d + tail == s;
    hide SkipDash, Calendar.AllDigits, DateHere;
    Cut(y, dash1 + afterYear);
    DashSkipped(dash1, m, dash2 + rest);
    Cut(m, dash2 + rest);
    DashSkipped(dash2, d, tail);
    Cut(d, tail);
    DateOfParts(s, afterYear, rest);
  }

  lemma Cut(a: string, b: string)
    ensures (a + b)[..|a|] == a && (a + b)[|a|..] == b
  {
  }

  lemma DateOfParts(s: string, afterYear: string, rest: string)
    requires |s| >= 4 && Calendar.AllDigits(s[..4]) && SkipDash(s[4..]) == afterYear
    requires |afterYear| >= 2 && Calendar.AllDigits(afterYear[..2]) && SkipDash(afterYear[2..]) == rest
    requires |rest| >= 2 && Calendar.AllDigits(rest[..2])
    ensures DateHere(s) == Some(s[..4] + "-" + afterYear[..2] + "-" + rest[..2])
  {
    hide SkipDash, Calendar.AllDigits;
  }

  lemma DashSkipped(dash: string, digits: string, rest: string)
    requires (dash == "" || dash == "-") && digits != "" && Calendar.AllDigits(digits)
    ensures SkipDash(dash + (digits + rest)) == digits + rest
  {
    assert IsDigit(digits[0]);
    assert dash == "" ==> dash + (digits + rest) == digits + rest;
    assert dash == "-" ==> (dash + (digits + rest))[1..] == digits + rest;
  }

  /** Text without digits in front of a date is passed over. */
  lemma {:induction false} LeadSkipped(lead: string, rest: string)
    requires NoDigits(lead) && (rest == [] || DateHere(rest).Some?)
    ensures IcalDate(lead + rest) == DateHere(rest)
  {
    if lead == [] {
      assert lead + rest == rest;
    } else {
      var t := lead + rest;
      assert t[1..] == lead[1..] + rest;
      assert |t| >= 4 ==> t[..4][0] == lead[0];
      LeadSkipped(lead[1..], rest);
    }
  }

  /** A date anywhere after a text without digits, with or without dashes, is read as the dashed date. */
  lemma DateRead(v: DateValue)
    requires NoDigits(v.lead)
    ensures IcalDate(DateText(v)) == Some(Calendar.Iso(v.date))
  {
    hide DateHere, IcalDate;
    var y := Calendar.Digits(v.date.year, 4);
    var (m, d) := (Calendar.Digits(v.date.month, 2), Calendar.Digits(v.date.day, 2));
    DatePartsRead(y, Dash(v.dash1), m, Dash(v.dash2), d, v.tail);
    LeadSkipped(v.lead, y + Dash(v.dash1) + m + Dash(v.dash2) + d + v.tail);
  }

  lemma NoDateRead(s: string)
    requires NoDigits(s)
    ensures IcalDate(s) == None
  {
    LeadSkipped(s, []);
    assert s + [] == s;
  }

  lemma NameBeforeParams(name: string, params: string)
    requires ';' !in name && (params == [] || params[0] == ';')
    ensures UpTo(name + params, ';') == name
  {
    CutAt(name, ';', if params == [] then [] else params[1..]);
    if params == [] {
      assert name + params == name;
    } else {
      assert name + [';'] + params[1..] == name + params;
    }
  }

  lemma PropertyRead(e: Event, events: seq<Event>, p: Property)
    requires GoodProperty(p) && PropertyLine(p) != BEGIN && PropertyLine(p) != END
    ensures Read(Reader(Some(e), events), PropertyLine(p)) == Reader(Some(Assign(e, Upper(p.name), p.value)), events)
  {
    hide Trim, Upper, UpTo, Assign;
    var head := p.name + p.params;
    assert ':' !in head;
    ColonSplits(head, p.lead + p.value + p.trail);
    NameBeforeParams(p.name, p.params);
    TrimPadded(p.lead, p.value, p.trail);
  }

  lemma ColonSplits(head: string, value: string)
    requires ':' !in head
    ensures var raw := head + ":" + value;
      IndexOf(raw, ":") == Some(|head|) && raw[..|head|] == head && raw[|head| + 1..] == value
  {
    var raw := head + ":" + value;
    assert raw[|head|..] == ":" + value;
    forall j: nat | j < |head| ensures !StartsWith(raw[j..], ":") {
      assert raw[j..][0] == head[j];
    }
    FirstIndex(raw, ":", |head|);
  }

  lemma NoiseRead(e: Event, events: seq<Event>, text: string)
    requires ':' !in text && text != BEGIN && text != END
    ensures Read(Reader(Some(e), events), text) == Reader(Some(e), events)
  {
    forall j: nat | j <= |text| ensures !StartsWith(text[j..], ":") {
      if j < |text| { assert text[j..][0] == text[j]; }
    }
  }

  /** The event after the reader has taken in these lines. */
  function Collected(e: Event, lines: seq<Line>): Event
    decreases lines
  {
    if lines == [] then e
    else
      Collected(match lines[0] case Content(p) => Assign(e, Upper(p.name), p.value) case Noise(_) => e, lines[1..])
  }

  lemma {:induction false} LinesRead(e: Event, events: seq<Event>, lines: seq<Line>)
    requires forall l :: l in lines ==> GoodLine(l)
    ensures ReadAll(Reader(Some(e), events), Texts(lines)) == Reader(Some(Collected(e, lines)), events)
    decreases lines
  {
    hide GoodProperty, PropertyLine, Read, Assign, Upper;
    if lines != [] {
      assert GoodLine(lines[0]);
      assert Texts(lines)[1..] == Texts(lines[1..]);
      match lines[0] {
        case Content(p) =>
          PropertyRead(e, events, p);
          LinesRead(Assign(e, Upper(p.name), p.value), events, lines[1..]);
        case Noise(text) =>
          NoiseRead(e, events, text);
          LinesRead(e, events, lines[1..]);
      }
    }
  }

  /** The value of the last property of that name. */
  function LastValue(lines: seq<Line>, key: string): Option<string> {
    if lines == [] then None
    else if LastValue(lines[1..], key).Some? then LastValue(lines[1..], key)
    else if Named(lines[0], key) then Some(lines[0].property.value) else None
  }

  lemma KeysDiffer()
    ensures "UID" != "DTSTART" && "UID" != "DTEND" && "UID" != "SUMMARY"
    ensures "DTSTART" != "DTEND" && "DTSTART" != "SUMMARY" && "DTEND" != "SUMMARY"
  {
    assert |"UID"| == 3 && |"DTSTART"| == 7 && |"DTEND"| == 5 && "DTSTART"[0] == 'D' && "SUMMARY"[0] == 'S';
  }

  /** Each field ends up with the last property of its name. */
  lemma {:induction false} LastOneWins(e: Event, lines: seq<Line>)
    ensures var r := Collected(e, lines);
      && r.uid == (match LastValue(lines, "UID") case None => e.uid case Some(v) => Some(v))
      && r.summary == (match LastValue(lines, "SUMMARY") case None => e.summary case Some(v) => Some(v))
      && r.start == (match LastValue(lines, "DTSTART") case None => e.start case Some(v) => IcalDate(v))
      && r.end == (match LastValue(lines, "DTEND") case None => e.end case Some(v) => IcalDate(v))
    decreases lines
  {
    hide Upper, IcalDate;
    if lines != [] {
      KeysDiffer();
      match lines[0] {
        case Content(p) => LastOneWins(Assign(e, Upper(p.name), p.value), lines[1..]);
        case Noise(_) => LastOneWins(e, lines[1..]);
      }
    }
  }

  lemma {:induction false} LastIsLast(lines: seq<Line>, key: string, i: int)
    requires IsLast(lines, key, i)
    ensures LastValue(lines, key) == Some(lines[i].property.value)
  {
    hide Named;
    assert forall j :: 0 <= j < |lines| - 1 ==> lines[1..][j] == lines[j + 1];
    if i == 0 {
      NoneIsNone(lines[1..], key);
    } else {
      LastIsLast(lines[1..], key, i - 1);
    }
  }

  lemma {:induction false} NoneIsNone(lines: seq<Line>, key: string)
    requires Unnamed(lines, key)
    ensures LastValue(lines, key) == None
  {
    hide Named;
    if lines != [] { NoneIsNone(lines[1..], key); }
  }

  lemma SpelledIsLast(lines: seq<Line>, key: string, value: Option<string>)
    requires Spells(lines, key, value)
    ensures LastValue(lines, key) == value
  {
    hide Unnamed, Upper;
    match value {
      case None => NoneIsNone(lines, key);
      case Some(v) =>
        var i :| IsLast(lines, key, i) && lines[i].property.value == v;
        LastIsLast(lines, key, i);
    }
  }

  lemma DateIsLast(lines: seq<Line>, key: string, date: Option<DateValue>)
    requires SpellsDate(lines, key, date)
    ensures (match LastValue(lines, key) case None => None case Some(v) => IcalDate(v)) == DashedDate(date)
  {
    hide Unnamed, Upper, IcalDate, DateText, NoDigits, Spells;
    match date {
      case None =>
        if Unnamed(lines, key) {
          NoneIsNone(lines, key);
        } else {
          var i :| IsLast(lines, key, i) && NoDigits(lines[i].property.value);
          LastIsLast(lines, key, i);
          NoDateRead(lines[i].property.value);
        }
      case Some(v) =>
        SpelledIsLast(lines, key, Some(DateText(v)));
        DateRead(v);
    }
  }

  lemma CollectedMeaning(e: VEvent, lines: seq<Line>)
    requires GoodEvent(e, lines)
    ensures Collected(NO_FIELDS, lines) == Meaning(e)
  {
    hide Spells, SpellsDate, GoodLine, IcalDate, LastValue, DashedDate, Collected;
    LastOneWins(NO_FIELDS, lines);
    SpelledIsLast(lines, "UID", e.uid);
    SpelledIsLast(lines, "SUMMARY", e.summary);
    DateIsLast(lines, "DTSTART", e.start);
    DateIsLast(lines, "DTEND", e.end);
  }

  lemma ReadOne(r: Reader, line: string)
    ensures ReadAll(r, [line]) == Read(r, line)
  {
    assert [line][1..] == [];
  }

  /** BEGIN starts afresh, whatever event was open: only the lines up to END count. */
  lemma OpenedRead(r: Reader, lines: seq<Line>)
    requires forall l :: l in lines ==> GoodLine(l)
    ensures ReadAll(r, [BEGIN] + Texts(lines)) == Reader(Some(Collected(NO_FIELDS, lines)), r.events)
  {
    hide GoodLine, ReadAll, Collected;
    ReadOne(r, BEGIN);
    ReadAllConcat(r, [BEGIN], Texts(lines));
    LinesRead(NO_FIELDS, r.events, lines);
  }

  lemma EventRead(r: Reader, e: VEvent, lines: seq<Line>)
    requires GoodEvent(e, lines)
    ensures ReadAll(r, ItemLines(Inside(e, lines))) == Reader(None, r.events + [Meaning(e)])
  {
    hide GoodLine, Spells, SpellsDate, ReadAll, Collected;
    OpenedRead(r, lines);
    CollectedMeaning(e, lines);
    ReadAllConcat(r, [BEGIN] + Texts(lines), [END]);
    ReadOne(Reader(Some(Meaning(e)), r.events), END);
  }

  /** Whatever was open before, an item adds its own event, if it has one. */
  lemma ItemRead(r: Reader, item: Item)
    requires GoodItem(item) && (r.cur.None? || !item.Outside?)
    ensures ReadAll(r, ItemLines(item)).events == r.events + Meanings([item])
    ensures ReadAll(r, ItemLines(item)).cur.None? || item.Broken?
  {
    assert [item][1..] == [];
    match item {
      case Outside(line) =>
        ReadOne(r, line);
        assert r.events + [] == r.events;
      case Inside(e, lines) =>
        EventRead(r, e, lines);
      case Broken(lines) =>
        OpenedRead(r, lines);
        assert r.events + [] == r.events;
    }
  }

  lemma MeaningsSplit(items: seq<Item>)
    requires items != []
    ensures Meanings(items) == Meanings([items[0]]) + Meanings(items[1..])
    ensures CalendarLines(items) == ItemLines(items[0]) + CalendarLines(items[1..])
  {
    hide Meaning, ItemLines;
    assert [items[0]][1..] == [];
    assert Meanings([]) == [];
  }

  lemma {:induction false} CalendarRead(r: Reader, items: seq<Item>)
    requires GoodCalendar(items) && (r.cur.None? || items == [] || !items[0].Outside?)
    ensures ReadAll(r, CalendarLines(items)).events == r.events + Meanings(items)
    decreases items
  {
    hide GoodItem, ItemLines, Read;
    if items == [] {
      assert r.events + Meanings(items) == r.events;
    } else {
      hide Meanings, CalendarLines, ReadAll;
      MeaningsSplit(items);
      ReadAllConcat(r, ItemLines(items[0]), CalendarLines(items[1..]));
      ItemRead(r, items[0]);
      var next := ReadAll(r, ItemLines(items[0]));
      assert items[0].Broken? && |items| > 1 ==> !items[1].Outside?;
      CalendarRead(next, items[1..]);
      assert r.events + Meanings([items[0]]) + Meanings(items[1..]) == r.events + Meanings(items);
    }
  }

  lemma PropertyLineClean(p: Property)
    requires GoodProperty(p)
    ensures CleanLine(PropertyLine(p))
  {
    assert PropertyLine(p)[0] == p.name[0];
  }

  lemma MarkersClean()
    ensures CleanLine(BEGIN) && CleanLine(END)
  {
  }

  lemma ItemLinesClean(item: Item)
    requires GoodItem(item)
    ensures forall line :: line in ItemLines(item) ==> CleanLine(line)
  {
    hide PropertyLine, GoodProperty, CleanLine, Spells, SpellsDate;
    MarkersClean();
    if !item.Outside? {
      var texts := Texts(item.lines);
      forall line | line in texts ensures CleanLine(line) {
        var i :| 0 <= i < |texts| && texts[i] == line;
        var l := item.lines[i];
        assert GoodLine(l);
        if l.Content? { PropertyLineClean(l.property); }
      }
    }
  }

  lemma {:induction false} CalendarLinesClean(items: seq<Item>)
    requires forall i :: 0 <= i < |items| ==> GoodItem(items[i])
    ensures forall line :: line in CalendarLines(items) ==> CleanLine(line)
  {
    hide GoodItem, ItemLines;
    if items != [] {
      ItemLinesClean(items[0]);
      CalendarLinesClean(items[1..]);
    }
  }

  /**
   Printing a calendar, folding its lines anywhere, and reading the text gives back every event in
   order, whichever of its four properties it states, and nothing for events broken off.
   */
  lemma ReadingUndoesPrinting(items: seq<Item>, ps: seq<Physical>)
    requires GoodCalendar(items) && LogicalLines(ps) == CalendarLines(items)
    ensures Parsed(Render(ps)) == Meanings(items)
  {
    hide GoodItem, ReadAll, Meanings, CalendarLines, Render, Unfold, Lines, CleanLine;
    CalendarLinesClean(items);
    forall p | p in ps ensures CleanLine(p.line) {
      var i :| 0 <= i < |ps| && ps[i] == p;
      assert p.line == CalendarLines(items)[i];
    }
    UnfoldingRecoversLines(ps);
    ReadAllConcat(Reader(None, []), CalendarLines(items), [""]);
    CalendarRead(Reader(None, []), items);
    var done := ReadAll(Reader(None, []), CalendarLines(items));
    assert [] + Meanings(items) == Meanings(items);
    EmptyLineRead(done);
  }

  lemma EmptyLineRead(r: Reader)
    ensures ReadAll(r, [""]).events == r.events
  {
    ReadOne(r, "");
  }

  // ----- what the reader finds in any text -----

  /** Without a line feed there is one line, with its carriage returns and blanks as they are. */
  lemma NoLineFeed(s: string)
    ensures '\n' !in s ==> Unfold(s) == s && Lines(s) == [s]
  {
    if s != [] && '\n' !in s {
      var rest := s[1..];
      assert s == [s[0]] + rest && s[0] != '\n' && (|s| >= 2 ==> s[1] != '\n');
      NoLineFeed(rest);
    }
  }

  /** Every date that is read has four, two and two digits with dashes between them. */
  lemma DatesHaveShape(s: string)
    ensures IcalDate(s).Some? ==> Calendar.IsoShape(IcalDate(s).value)
  {
    if DateHere(s).Some? {
      var d := DateHere(s).value;
      assert d[..4] == s[..4] && |d| == 10;
    } else if s != [] {
      DatesHaveShape(s[1..]);
    }
  }

  /** Printing can use every fold, every line end, either form of a date and events without an end. */
  lemma EveryForm()
    ensures forall text :: text in ["\r\n ", "\r\n\t", "\n ", "\n\t"] ==> exists f :: FoldText(f) == text
    ensures forall text :: text in ["\r\n", "\n"] ==> exists crlf :: Eol(crlf) == text
    ensures forall lines :: ItemLines(Broken(lines)) == ["BEGIN:VEVENT"] + Texts(lines)
    ensures forall text :: text in ["", "-"] ==> exists dashed :: Dash(dashed) == text
  {
    assert FoldText(Fold(true, false)) == "\r\n " && FoldText(Fold(true, true)) == "\r\n\t";
    assert FoldText(Fold(false, false)) == "\n " && FoldText(Fold(false, true)) == "\n\t";
    assert Eol(true) == "\r\n" && Eol(false) == "\n" && Dash(true) == "-" && Dash(false) == "";
  }
}
