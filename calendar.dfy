/** The month view of the calendar without the DOM: `firstDay` blank cells, then one
    cell per day of the month, each labelled with its date string and holding the
    events of that date. */
module CalendarGrid {
  import opened Gregorian
  import opened DateStrings
  import opened Events

  datatype Cell = Blank | Day(number: nat, date: string, events: seq<Event>)

  /** `new Date(year, month, 1).getDay()`: the weekday of the first, Sunday = 0. */
  function FirstDay(year: int, month: int): (w: int)
    requires 0 <= month < 12
    ensures 0 <= w <= 6
  {
    WeekDay(NewDateDay(year, month, 1))
  }

  /** `new Date(year, month + 1, 0).getDate()`: the length of the month (see
      MonthLengthIsDateOfDayZero for why that date is the length). */
  function MonthLength(year: int, month: int): (n: nat)
    requires 0 <= month < 12
    ensures 28 <= n <= 31
  {
    DaysInMonth(HostYear(year), month)
  }

  const MonthNames: seq<string> := ["January", "February", "March", "April", "May", "June",
    "July", "August", "September", "October", "November", "December"]

  /** The heading above the grid: the month's name, a space and the year. */
  function MonthTitle(year: int, month: int): (t: string)
    requires 0 <= month < 12
    ensures |t| > |MonthNames[month]|
    ensures t[..|MonthNames[month]|] == MonthNames[month]
    ensures t[|MonthNames[month]|] == ' '
    ensures t[|MonthNames[month]| + 1..] == IntToString(year)
  {
    MonthNames[month] + " " + IntToString(year)
  }

  /** The cell of day `day`: its number, its label and the events dated by it. */
  function DayCell(year: int, month: int, day: nat, events: seq<Event>): (c: Cell)
    requires 0 <= month < 12
    ensures c.Day? && c.number == day && c.date == DateString(year, month, day)
    ensures forall e :: e in c.events <==> e in events && e.date == c.date
  {
    var date := DateString(year, month, day);
    SubsequenceElements(EventsOn(events, date), events);
    Day(day, date, EventsOn(events, date))
  }

  function Blanks(k: nat): (cells: seq<Cell>)
    ensures |cells| == k
  {
    seq(k, _ => Blank)
  }

  /** The cells of days 1..n in increasing order. */
  function DayCells(year: int, month: int, n: nat, events: seq<Event>): (cells: seq<Cell>)
    requires 0 <= month < 12
    ensures |cells| == n
  {
    if n == 0 then [] else DayCells(year, month, n - 1, events) + [DayCell(year, month, n, events)]
  }

  /** A month view of month `month` of `year` whose first falls on weekday `f` and
      which has `n` days. */
  function Layout(year: int, month: int, f: nat, n: nat, events: seq<Event>): seq<Cell>
    requires 0 <= month < 12
  {
    Blanks(f) + DayCells(year, month, n, events)
  }

  /** The month view `initCalendar` renders: the layout at the first weekday and the
      month length the Date object gives. The lemmas below are stated for every
      layout, so they hold of the Grid in particular, and keep the calendar
      arithmetic out of their quantifiers. */
  function Grid(year: int, month: int, events: seq<Event>): (g: seq<Cell>)
    requires 0 <= month < 12
    ensures |g| == FirstDay(year, month) + MonthLength(year, month)
  {
    Layout(year, month, FirstDay(year, month), MonthLength(year, month), events)
  }

  /** `initCalendar` without the DOM: compute the first weekday and the length of
      the month, then lay the cells out. */
  method RenderMonth(year: int, month: int, events: seq<Event>) returns (cells: seq<Cell>)
    requires 0 <= month < 12
    ensures cells == Grid(year, month, events)
    ensures |cells| == FirstDay(year, month) + MonthLength(year, month)
  {
    var firstDay := FirstDay(year, month);
    var daysInMonth := MonthLength(year, month);
    cells := LayOutCells(year, month, firstDay, daysInMonth, events);
  }

  /** The two render loops: first the blank cells, then the day cells one by one,
      each with `events.filter` applied to its date label. */
  method LayOutCells(year: int, month: int, firstDay: nat, daysInMonth: nat, events: seq<Event>)
    returns (cells: seq<Cell>)
    requires 0 <= month < 12
    ensures cells == Layout(year, month, firstDay, daysInMonth, events)
    ensures |cells| == firstDay + daysInMonth
  {
    cells := [];
    var i := 0;
    while i < firstDay
      invariant 0 <= i <= firstDay
      invariant cells == Blanks(i)
    {
      cells := cells + [Blank];
      assert cells == Blanks(i + 1);
      i := i + 1;
    }
    var day := 1;
    while day <= daysInMonth
      invariant 1 <= day <= daysInMonth + 1
      invariant cells == Blanks(firstDay) + DayCells(year, month, day - 1, events)
    {
      var dateStr := DateString(year, month, day);
      var dayEvents := EventsOn(events, dateStr);
      cells := cells + [Day(day, dateStr, dayEvents)];
      assert cells == Blanks(firstDay) + DayCells(year, month, day, events) by {
        assert DayCells(year, month, day, events)
            == DayCells(year, month, day - 1, events) + [DayCell(year, month, day, events)];
      }
      day := day + 1;
    }
  }

  // ---------------------------------------------------------------------------
  // Lemmas

  lemma {:induction false} DayCellsAt(year: int, month: int, n: nat, events: seq<Event>, k: nat)
    requires 0 <= month < 12 && k < n
    ensures DayCells(year, month, n, events)[k] == DayCell(year, month, k + 1, events)
  {
    if k < n - 1 {
      DayCellsAt(year, month, n - 1, events, k);
    }
  }

  /** A layout is `f` blank cells followed by `n` day cells numbered 1..n in order,
      each labelled with its date string and holding the events of that date. */
  lemma LayoutShape(year: int, month: int, f: nat, n: nat, events: seq<Event>)
    requires 0 <= month < 12
    ensures |Layout(year, month, f, n, events)| == f + n
    ensures forall k :: 0 <= k < f ==> Layout(year, month, f, n, events)[k] == Blank
    ensures forall k :: f <= k < f + n ==>
      Layout(year, month, f, n, events)[k] == DayCell(year, month, k - f + 1, events)
  {
    var g := Layout(year, month, f, n, events);
    forall k | f <= k < f + n
      ensures g[k] == DayCell(year, month, k - f + 1, events)
    {
      DayCellsAt(year, month, n, events, k - f);
    }
  }

  /** Day `d` sits at position f + d - 1, numbered `d`, labelled with its date
      string and holding exactly the events of that date. */
  lemma DayPosition(year: int, month: int, f: nat, n: nat, events: seq<Event>, d: nat)
    requires 0 <= month < 12 && 1 <= d <= n
    ensures f + d - 1 < |Layout(year, month, f, n, events)|
    ensures Layout(year, month, f, n, events)[f + d - 1]
         == Day(d, DateString(year, month, d), EventsOn(events, DateString(year, month, d)))
  {
    LayoutShape(year, month, f, n, events);
  }

  /** An event is in a day cell exactly when it is in the list and its date is that
      cell's label. */
  lemma EventPlacement(year: int, month: int, f: nat, n: nat, events: seq<Event>, k: nat, e: Event)
    requires 0 <= month < 12 && k < f + n
    requires Layout(year, month, f, n, events)[k].Day?
    ensures e in Layout(year, month, f, n, events)[k].events
        <==> e in events && e.date == Layout(year, month, f, n, events)[k].date
  {
    LayoutAt(year, month, f, n, events, k);
    var date := DateString(year, month, k - f + 1);
    SubsequenceElements(EventsOn(events, date), events);
  }

  /** No event appears in two cells (months have fewer than 100 days). */
  lemma EventInAtMostOneCell(year: int, month: int, f: nat, n: nat, events: seq<Event>, e: Event, i: nat, j: nat)
    requires 0 <= month < 12 && n < 100
    requires i < f + n && j < f + n
    requires Layout(year, month, f, n, events)[i].Day? && e in Layout(year, month, f, n, events)[i].events
    requires Layout(year, month, f, n, events)[j].Day? && e in Layout(year, month, f, n, events)[j].events
    ensures i == j
  {
    EventDateOfCell(year, month, f, n, events, e, i);
    EventDateOfCell(year, month, f, n, events, e, j);
    CellLabelsDistinct(year, month, f, n, events, i, j);
  }

  /** An event shown in cell k carries that cell's label as its date. */
  lemma EventDateOfCell(year: int, month: int, f: nat, n: nat, events: seq<Event>, e: Event, k: nat)
    requires 0 <= month < 12 && k < f + n
    requires Layout(year, month, f, n, events)[k].Day? && e in Layout(year, month, f, n, events)[k].events
    ensures e.date == Layout(year, month, f, n, events)[k].date
  {
    LayoutAt(year, month, f, n, events, k);
  }

  /** Two day cells of one layout (of fewer than 100 days) have different labels. */
  lemma CellLabelsDistinct(year: int, month: int, f: nat, n: nat, events: seq<Event>, i: nat, j: nat)
    requires 0 <= month < 12 && n < 100 && i < f + n && j < f + n
    requires Layout(year, month, f, n, events)[i].Day? && Layout(year, month, f, n, events)[j].Day?
    requires Layout(year, month, f, n, events)[i].date == Layout(year, month, f, n, events)[j].date
    ensures i == j
  {
    CellLabel(year, month, f, n, events, i);
    CellLabel(year, month, f, n, events, j);
    SameLabelSameDay(year, month, i - f + 1, j - f + 1);
  }

  /** A day cell at position k is labelled with the date of day k - f + 1. */
  lemma CellLabel(year: int, month: int, f: nat, n: nat, events: seq<Event>, k: nat)
    requires 0 <= month < 12 && k < f + n && Layout(year, month, f, n, events)[k].Day?
    ensures f <= k && Layout(year, month, f, n, events)[k].date == DateString(year, month, k - f + 1)
  {
    LayoutAt(year, month, f, n, events, k);
  }

  /** Position k of a layout: a blank before f, the cell of day k - f + 1 after. */
  lemma LayoutAt(year: int, month: int, f: nat, n: nat, events: seq<Event>, k: nat)
    requires 0 <= month < 12 && k < f + n
    ensures k < f ==> Layout(year, month, f, n, events)[k] == Blank
    ensures f <= k ==> Layout(year, month, f, n, events)[k] == DayCell(year, month, k - f + 1, events)
  {
    if f <= k {
      DayCellsAt(year, month, n, events, k - f);
    }
  }

  /** Where an event of the list lands: in the day cell whose label is its date and
      in no other cell, so in none when no day of the month carries its date. */
  lemma EventLandsOnItsDay(year: int, month: int, f: nat, n: nat, events: seq<Event>, e: Event)
    requires 0 <= month < 12 && e in events
    ensures |Layout(year, month, f, n, events)| == f + n
    ensures forall k :: 0 <= k < f ==> Layout(year, month, f, n, events)[k] == Blank
    ensures forall d :: 1 <= d <= n ==>
      && Layout(year, month, f, n, events)[f + d - 1].Day?
      && (e in Layout(year, month, f, n, events)[f + d - 1].events <==> e.date == DateString(year, month, d))
  {
    LayoutShape(year, month, f, n, events);
    forall d | 1 <= d <= n
      ensures && Layout(year, month, f, n, events)[f + d - 1].Day?
              && (e in Layout(year, month, f, n, events)[f + d - 1].events <==> e.date == DateString(year, month, d))
    {
      assert Layout(year, month, f, n, events)[f + d - 1] == DayCell(year, month, d, events);
    }
  }

  /** Why MonthLength is the value of `new Date(year, month + 1, 0).getDate()`:
      day 0 of the next month is day MonthLength of this one, and that day lies in
      this month (before the first of the next). */
  lemma MonthLengthIsDateOfDayZero(year: int, month: int)
    requires 0 <= month < 12
    ensures NewDateDay(year, month + 1, 0) == NewDateDay(year, month, MonthLength(year, month))
    ensures NewDateDay(year, month, 1) <= NewDateDay(year, month + 1, 0) < NewDateDay(year, month + 1, 1)
  {
    DayZeroIsLastDay(HostYear(year), month);
    NextMonthStart(HostYear(year), month);
  }

  /** February has 29 cells exactly in leap years (of the year the Date object uses). */
  lemma FebruaryLength(year: int)
    ensures MonthLength(year, 1) == 29 <==> IsLeapYear(HostYear(year))
  {
  }

  /** Years 0..99 are laid out as the years 1900..1999 (first weekday and length),
      while their labels keep the short year. So year 0, a Gregorian leap year, gets
      a 28-day February, because 1900 was no leap year. */
  lemma TwoDigitYearsUseThe1900s(year: int, month: int)
    requires 0 <= year <= 99 && 0 <= month < 12
    ensures FirstDay(year, month) == FirstWeekday(1900 + year, month)
    ensures MonthLength(year, month) == DaysInMonth(1900 + year, month)
    ensures year == 0 && month == 1 ==> IsLeapYear(year) && MonthLength(year, month) == 28
  {
  }

  /** Two words without spaces, each followed by a space and a tail, can only be
      equal when the words and the tails are. */
  lemma SplitAtFirstSpace(a1: string, b1: string, a2: string, b2: string)
    requires ' ' !in a1 && ' ' !in a2
    requires a1 + " " + b1 == a2 + " " + b2
    ensures a1 == a2 && b1 == b2
  {
    var t := a1 + " " + b1;
    if |a2| <= |a1| {
      SpaceAt(a1, b1, |a2|);
    } else {
      SpaceAt(a2, b2, |a1|);
    }
    assert a1 == t[..|a1|] == a2;
    assert b1 == t[|a1| + 1..] == b2;
  }

  /** In a word without spaces followed by a space, the first space is that one. */
  lemma SpaceAt(a: string, b: string, k: nat)
    requires ' ' !in a && k <= |a| && (a + " " + b)[k] == ' '
    ensures k == |a|
  {
  }

  lemma MonthNamesFacts()
    ensures forall m :: 0 <= m < 12 ==> ' ' !in MonthNames[m]
    ensures forall i, j :: 0 <= i < 12 && 0 <= j < 12 && MonthNames[i] == MonthNames[j] ==> i == j
  {
  }

  /** The heading names the month shown: different (month, year) cursors get
      different headings. */
  lemma MonthTitleInjective(y1: int, m1: int, y2: int, m2: int)
    requires 0 <= m1 < 12 && 0 <= m2 < 12
    ensures MonthTitle(y1, m1) == MonthTitle(y2, m2) <==> y1 == y2 && m1 == m2
  {
    if MonthTitle(y1, m1) == MonthTitle(y2, m2) {
      MonthNamesFacts();
      SplitAtFirstSpace(MonthNames[m1], IntToString(y1), MonthNames[m2], IntToString(y2));
      IntToStringInjective(y1, y2);
    }
  }

  /** The first weekday of every month agrees with Zeller's congruence for the year
      the Date object uses. */
  lemma FirstDayIsZeller(year: int, month: int)
    requires 0 <= month < 12
    ensures FirstDay(year, month) == (Zeller(HostYear(year), month, 1) + 6) % 7
  {
    FirstWeekdayIsZeller(HostYear(year), month);
  }
}
