/** Proleptic Gregorian date arithmetic, written out the way ECMA-262 defines the
    Date abstract operations (section 21.4.1): a day count from 1970-01-01, the
    cumulative month table behind MonthFromTime, MakeDay and WeekDay. The calendar
    renders from this instead of the host Date object. Months are 0-based, as in
    JavaScript. */
module Gregorian {

  /** Leap year: divisible by 4 and not by 100, or divisible by 400. */
  predicate IsLeapYear(y: int) {
    (y % 4 == 0 && y % 100 != 0) || y % 400 == 0
  }

  function LeapDay(y: int): int {
    if IsLeapYear(y) then 1 else 0
  }

  /** DaysInYear of ECMA-262 section 21.4.1.3. */
  function DaysInYear(y: int): int {
    365 + LeapDay(y)
  }

  /** Length of month `m` (0 = January) of year `y`. */
  function DaysInMonth(y: int, m: int): (n: int)
    requires 0 <= m < 12
    ensures 28 <= n <= 31
    ensures m == 1 ==> (n == 29 <==> IsLeapYear(y))
    ensures m != 1 ==> n >= 30
  {
    if m == 1 then 28 + LeapDay(y)
    else if m == 3 || m == 5 || m == 8 || m == 10 then 30
    else 31
  }

  /** Day number (days since 1970-01-01) of January 1 of year `y`: DayFromYear of
      ECMA-262 section 21.4.1.3. Dafny's `/` on a positive divisor is the floor. */
  function DayFromYear(y: int): int {
    365 * (y - 1970) + (y - 1969) / 4 - (y - 1901) / 100 + (y - 1601) / 400
  }

  /** Days of year `y` before the first of month `m`: the cumulative table that
      MonthFromTime and DateFromTime (ECMA-262 sections 21.4.1.6, 21.4.1.7) use. */
  function MonthStart(y: int, m: int): int
    requires 0 <= m < 12
  {
    var l := LeapDay(y);
    match m
    case 0 => 0
    case 1 => 31
    case 2 => 59 + l
    case 3 => 90 + l
    case 4 => 120 + l
    case 5 => 151 + l
    case 6 => 181 + l
    case 7 => 212 + l
    case 8 => 243 + l
    case 9 => 273 + l
    case 10 => 304 + l
    case _ => 334 + l
  }

  /** MakeDay(year, month, date) of ECMA-262 section 21.4.1.28: the month may lie
      outside 0..11 (it carries into the year) and the date may be 0 or exceed the
      month, in which case it counts on from the first of the month. */
  function MakeDay(year: int, month: int, date: int): int {
    var ym := year + month / 12;
    var mn := month % 12;
    DayFromYear(ym) + MonthStart(ym, mn) + date - 1
  }

  /** WeekDay of ECMA-262 section 21.4.1.5: 0 = Sunday; 1970-01-01 was a Thursday. */
  function WeekDay(day: int): (w: int)
    ensures 0 <= w < 7
  {
    (day + 4) % 7
  }

  /** The weekday of the first of month `m` of year `y`, Sunday = 0. */
  function FirstWeekday(y: int, m: int): (w: int)
    requires 0 <= m < 12
    ensures 0 <= w <= 6
  {
    WeekDay(MakeDay(y, m, 1))
  }

  /** The year the Date constructor actually uses: section 21.4.2.1 of ECMA-262
      reads a year argument 0..99 as 1900 + year. */
  function HostYear(year: int): (y: int)
    ensures 0 <= year <= 99 ==> 1900 <= y <= 1999 && y % 100 == year
    ensures (year < 0 || 99 < year) ==> y == year
  {
    if 0 <= year <= 99 then 1900 + year else year
  }

  /** The day number of `new Date(year, month, date)` (time of day and time zone
      play no part in these date-only computations). */
  function NewDateDay(year: int, month: int, date: int): (d: int)
    ensures 0 <= month < 12 ==>
      d == DayFromYear(HostYear(year)) + MonthStart(HostYear(year), month) + date - 1
  {
    if 0 <= month < 12 then
      MakeDayInYear(HostYear(year), month, date);
      MakeDay(HostYear(year), month, date)
    else
      MakeDay(HostYear(year), month, date)
  }


  /** Zeller's congruence in its Gregorian form (0 = Saturday), with January and
      February counted as months 13 and 14 of the previous year: an independent
      reference for FirstWeekday. */
  function Zeller(y: int, m: int, q: int): int
    requires 0 <= m < 12
  {
    var yy := if m < 2 then y - 1 else y;
    (q + ZellerMonthTerm(m) + yy + yy / 4 - yy / 100 + yy / 400) % 7
  }

  /** Zeller's month term floor(13 (M + 1) / 5), with M = 3 for March up to M = 14
      for February. */
  function ZellerMonthTerm(m: int): int
    requires 0 <= m < 12
  {
    var mm := if m < 2 then m + 13 else m + 1;
    (13 * (mm + 1)) / 5
  }

  // ---------------------------------------------------------------------------
  // Lemmas

  /** One year on, DayFromYear has advanced by exactly that year's length. */
  lemma DayFromYearStep(y: int)
    ensures DayFromYear(y + 1) == DayFromYear(y) + DaysInYear(y)
  {
    Step4(y);
    Step100(y);
    Step400(y);
    LeapDayTerms(y);
  }

  /** The leap day by inclusion and exclusion over 4, 100 and 400. */
  lemma LeapDayTerms(y: int)
    ensures LeapDay(y) == (if y % 4 == 0 then 1 else 0) - (if y % 100 == 0 then 1 else 0)
                          + (if y % 400 == 0 then 1 else 0)
  {
    if y % 400 == 0 {
      Multiple400(y);
    }
    if y % 100 == 0 {
      Multiple100(y);
    }
  }

  lemma Multiple400(y: int)
    requires y % 400 == 0
    ensures y % 100 == 0
  {
    var q := y / 400;
    assert y == 100 * (4 * q);
  }

  lemma Multiple100(y: int)
    requires y % 100 == 0
    ensures y % 4 == 0
  {
    var q := y / 100;
    assert y == 4 * (25 * q);
  }

  lemma Step4(y: int)
    ensures (y - 1968) / 4 == (y - 1969) / 4 + (if y % 4 == 0 then 1 else 0)
  {
    FloorStep4(y - 1969);
    assert (y - 1968) % 4 == y % 4;
  }

  lemma Step100(y: int)
    ensures (y - 1900) / 100 == (y - 1901) / 100 + (if y % 100 == 0 then 1 else 0)
  {
    FloorStep100(y - 1901);
    assert (y - 1900) % 100 == y % 100;
  }

  lemma Step400(y: int)
    ensures (y - 1600) / 400 == (y - 1601) / 400 + (if y % 400 == 0 then 1 else 0)
  {
    FloorStep400(y - 1601);
    assert (y - 1600) % 400 == y % 400;
  }

  lemma FloorStep4(a: int)
    ensures (a + 1) / 4 == a / 4 + (if (a + 1) % 4 == 0 then 1 else 0)
  {
  }

  lemma FloorStep100(a: int)
    ensures (a + 1) / 100 == a / 100 + (if (a + 1) % 100 == 0 then 1 else 0)
  {
  }

  lemma FloorStep400(a: int)
    ensures (a + 1) / 400 == a / 400 + (if (a + 1) % 400 == 0 then 1 else 0)
  {
  }

  /** The twelve month lengths add up to the year's length. */
  lemma MonthLengthsSumToYear(y: int)
    ensures DaysInMonth(y, 0) + DaysInMonth(y, 1) + DaysInMonth(y, 2) + DaysInMonth(y, 3)
          + DaysInMonth(y, 4) + DaysInMonth(y, 5) + DaysInMonth(y, 6) + DaysInMonth(y, 7)
          + DaysInMonth(y, 8) + DaysInMonth(y, 9) + DaysInMonth(y, 10) + DaysInMonth(y, 11)
          == DaysInYear(y)
  {
  }

  /** Within 0..11 the month needs no carry. */
  lemma MakeDayInYear(y: int, m: int, d: int)
    requires 0 <= m < 12
    ensures MakeDay(y, m, d) == DayFromYear(y) + MonthStart(y, m) + d - 1
  {
    assert m / 12 == 0 && m % 12 == m;
  }

  /** Month 12 is January of the next year. */
  lemma MakeDayCarry(y: int, d: int)
    ensures MakeDay(y, 12, d) == MakeDay(y + 1, 0, d)
  {
    assert 12 / 12 == 1 && 12 % 12 == 0;
  }

  /** The cumulative month table grows by each month's length. */
  lemma MonthStartStep(y: int, m: int)
    requires 0 <= m < 11
    ensures MonthStart(y, m + 1) == MonthStart(y, m) + DaysInMonth(y, m)
  {
  }

  /** Consecutive firsts of the month lie DaysInMonth apart, December included
      (there the month carries into the next year). */
  lemma NextMonthStart(y: int, m: int)
    requires 0 <= m < 12
    ensures MakeDay(y, m + 1, 1) == MakeDay(y, m, 1) + DaysInMonth(y, m)
  {
    MakeDayInYear(y, m, 1);
    if m == 11 {
      MakeDayCarry(y, 1);
      MakeDayInYear(y + 1, 0, 1);
      DayFromYearStep(y);
    } else {
      MakeDayInYear(y, m + 1, 1);
      MonthStartStep(y, m);
    }
  }

  /** What `new Date(y, m + 1, 0)` denotes: day 0 of the next month is the last day
      of month `m`, its DaysInMonth(y, m)-th day. This is why `getDate()` of it is the
      month's length. */
  lemma DayZeroIsLastDay(y: int, m: int)
    requires 0 <= m < 12
    ensures MakeDay(y, m + 1, 0) == MakeDay(y, m, DaysInMonth(y, m))
  {
    NextMonthStart(y, m);
  }

  /** Distinct dates of one month are distinct days. */
  lemma MakeDayInjective(y: int, m: int, d1: int, d2: int)
    requires 0 <= m < 12
    ensures MakeDay(y, m, d1) == MakeDay(y, m, d2) <==> d1 == d2
  {
  }

  /** The first weekday of the next month follows from this month's length. */
  lemma NextFirstWeekday(y: int, m: int)
    requires 0 <= m < 11
    ensures FirstWeekday(y, m + 1) == (FirstWeekday(y, m) + DaysInMonth(y, m)) % 7
  {
    var a, n := MakeDay(y, m, 1) + 4, DaysInMonth(y, m);
    assert MakeDay(y, m + 1, 1) + 4 == a + n by {
      NextMonthStart(y, m);
    }
    ModAdd(a, n);
  }

  /** December's successor is January of the next year. */
  lemma NextFirstWeekdayOfYear(y: int)
    ensures FirstWeekday(y + 1, 0) == (FirstWeekday(y, 11) + 31) % 7
  {
    NextMonthStart(y, 11);
    assert MakeDay(y, 12, 1) == MakeDay(y + 1, 0, 1);
    ModAdd(MakeDay(y, 11, 1) + 4, 31);
  }

  /** Adding to a day number shifts its weekday by the same amount modulo 7. */
  lemma ModAdd(a: int, n: int)
    ensures (a + n) % 7 == (a % 7 + n) % 7
  {
    ModOfMultiple(a / 7, a % 7 + n);
  }

  lemma ModOfMultiple(q: int, x: int)
    ensures (7 * q + x) % 7 == x % 7
  {
  }

  /** Shorthand used by the Zeller proof: Y + Y/4 - Y/100 + Y/400. */
  function YearShift(yy: int): int {
    yy + yy / 4 - yy / 100 + yy / 400
  }

  /** DayFromYear(y) and YearShift(y - 1) agree modulo 7 up to the constant 4:
      1970-01-01 is day 719162 after 0001-01-01, and 719162 == 7 * 102737 + 3. */
  lemma DayFromYearMod7(y: int)
    ensures (DayFromYear(y) - YearShift(y - 1) - 4) % 7 == 0
  {
    var a := y - 1;
    ShiftDiv(a);
    assert DayFromYear(y) - YearShift(a) - 4 == 7 * (52 * a - 102738);
    ModOfMultiple(52 * a - 102738, 0);
  }

  /** The three floors of DayFromYear, measured from year 1 instead of 1970. */
  lemma ShiftDiv(a: int)
    ensures (a - 1968) / 4 == a / 4 - 492
    ensures (a - 1900) / 100 == a / 100 - 19
    ensures (a - 1600) / 400 == a / 400 - 4
  {
    assert a - 1968 == 4 * (a / 4 - 492) + a % 4;
    assert a - 1900 == 100 * (a / 100 - 19) + a % 100;
    assert a - 1600 == 400 * (a / 400 - 4) + a % 400;
  }

  lemma YearShiftStep(y: int)
    ensures YearShift(y) == YearShift(y - 1) + 1 + LeapDay(y)
  {
    FloorStep4(y - 1);
    FloorStep100(y - 1);
    FloorStep400(y - 1);
  }

  /** The cumulative month table and Zeller's month term agree modulo 7, once the
      leap day and the year shift of March..December are taken into account. */
  lemma MonthTermsAgree(y: int, m: int)
    requires 0 <= m < 12
    ensures (MonthStart(y, m) + 1 - ZellerMonthTerm(m) - (if m >= 2 then 1 + LeapDay(y) else 0)) % 7 == 0
  {
    match m
    case 0 => assert ZellerMonthTerm(0) == 36;
    case 1 => assert ZellerMonthTerm(1) == 39;
    case 2 => assert ZellerMonthTerm(2) == 10;
    case 3 => assert ZellerMonthTerm(3) == 13;
    case 4 => assert ZellerMonthTerm(4) == 15;
    case 5 => assert ZellerMonthTerm(5) == 18;
    case 6 => assert ZellerMonthTerm(6) == 20;
    case 7 => assert ZellerMonthTerm(7) == 23;
    case 8 => assert ZellerMonthTerm(8) == 26;
    case 9 => assert ZellerMonthTerm(9) == 28;
    case 10 => assert ZellerMonthTerm(10) == 31;
    case _ => assert ZellerMonthTerm(11) == 33;
  }

  /** The day-count weekday of the first of a month agrees with Zeller's congruence
      (shifted from Saturday = 0 to Sunday = 0). */
  lemma FirstWeekdayIsZeller(y: int, m: int)
    requires 0 <= m < 12
    ensures FirstWeekday(y, m) == (Zeller(y, m, 1) + 6) % 7
  {
    var d, s0 := DayFromYear(y), YearShift(y - 1);
    assert (d - s0 - 4) % 7 == 0 by {
      DayFromYearMod7(y);
    }
    var yy := if m < 2 then y - 1 else y;
    var z, ys, ms := ZellerMonthTerm(m), YearShift(yy), MonthStart(y, m);
    assert (ms + 1 - z + (s0 - ys)) % 7 == 0 by {
      if m >= 2 {
        YearShiftStep(y);
      }
      MonthTermsAgree(y, m);
    }
    WeekdaysAgree(d, s0, ms, z, ys);
    assert Zeller(y, m, 1) == (1 + z + ys) % 7;
    assert FirstWeekday(y, m) == (d + ms + 4) % 7 by {
      MakeDayInYear(y, m, 1);
    }
  }

  /** The arithmetic core of FirstWeekdayIsZeller, on plain integers. */
  lemma WeekdaysAgree(d: int, s0: int, ms: int, z: int, ys: int)
    requires (d - s0 - 4) % 7 == 0
    requires (ms + 1 - z + (s0 - ys)) % 7 == 0
    ensures (d + ms + 4) % 7 == ((1 + z + ys) % 7 + 6) % 7
  {
    var k, c := (d - s0 - 4) / 7, ms + 1 - z + (s0 - ys);
    var j := c / 7;
    assert d + ms + 4 == 7 * (k + j) + (7 + z + ys);
    ModOfMultiple(k + j, 7 + z + ys);
    ModAdd(1 + z + ys, 6);
  }
}
