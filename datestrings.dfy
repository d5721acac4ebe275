/** The date label of a calendar cell: JavaScript's decimal rendering of an integer
    (`String(n)`), `padStart(2, '0')`, and the `year-MM-DD` string built from them.
    For four-digit years this is the extended calendar-date format of section
    4.1.2.2 of ISO 8601:2004; the year itself is never padded. */
module DateStrings {

  predicate IsDigit(c: char) {
    '0' <= c <= '9'
  }

  predicate AllDigits(s: string) {
    forall i :: 0 <= i < |s| ==> IsDigit(s[i])
  }

  function DigitChar(d: int): (c: char)
    requires 0 <= d < 10
    ensures IsDigit(c)
    ensures c as int - '0' as int == d
  {
    (('0' as int) + d) as char
  }

  function DigitValue(c: char): int
    requires IsDigit(c)
  {
    c as int - '0' as int
  }

  /** `String(n)` for a non-negative integer: its decimal digits, most significant
      first, without leading zeros. */
  function NatToString(n: nat): (s: string)
    ensures |s| >= 1
    decreases n
  {
    if n < 10 then [DigitChar(n)] else NatToString(n / 10) + [DigitChar(n % 10)]
  }

  /** `String(i)` for an integer: a minus sign before the digits of a negative one. */
  function IntToString(i: int): (s: string)
    ensures |s| >= 1
    ensures i < 0 <==> s[0] == '-'
  {
    if i < 0 then "-" + NatToString(-i) else NatToStringDigits(i); NatToString(i)
  }

  /** `s.padStart(2, '0')`: zeros in front up to length 2; a longer string is kept. */
  function PadStart2(s: string): (r: string)
    ensures |r| == if |s| < 2 then 2 else |s|
    ensures r[|r| - |s|..] == s
    ensures forall i :: 0 <= i < |r| - |s| ==> r[i] == '0'
  {
    if |s| < 2 then seq(2 - |s|, _ => '0') + s else s
  }

  /** The label of day `day` of month `month` (0-based) of year `year`: the year
      as written, then (for days below 100) a dash, the month number in two
      digits, a dash and the day in two digits. */
  function DateString(year: int, month: int, day: nat): (s: string)
    requires 0 <= month < 12
    ensures day < 100 ==> |s| == |IntToString(year)| + 6
    ensures day < 100 ==> s[..|IntToString(year)|] == IntToString(year)
    ensures day < 100 ==> s[|IntToString(year)|..] == Tail(month, day)
  {
    var ys, mm, dd := IntToString(year), PadStart2(NatToString(month + 1)), PadStart2(NatToString(day));
    if day < 100 then
      PaddedTwoDigits(month + 1);
      PaddedTwoDigits(day);
      Regroup(ys, mm, dd);
      ys + "-" + mm + "-" + dd
    else
      ys + "-" + mm + "-" + dd
  }

  /** The number a string of decimal digits denotes: the reference reading of
      NatToString. */
  function DecimalValue(s: string): nat
    requires AllDigits(s)
  {
    if s == [] then 0 else DecimalValue(s[..|s| - 1]) * 10 + DigitValue(s[|s| - 1])
  }

  // ---------------------------------------------------------------------------
  // Lemmas

  /** The rendering is all digits, a single one exactly below 10, and starts with
      '0' only for zero itself. */
  lemma {:induction false} NatToStringDigits(n: nat)
    ensures AllDigits(NatToString(n))
    ensures (|NatToString(n)| == 1) == (n < 10)
    ensures NatToString(n)[0] == '0' ==> n == 0
    decreases n
  {
    if n >= 10 {
      NatToStringDigits(n / 10);
      var s := NatToString(n);
      assert s == NatToString(n / 10) + [DigitChar(n % 10)];
      assert s[0] == NatToString(n / 10)[0];
    }
  }

  /** Reading the digits back gives the number that was written. */
  lemma {:induction false} NatToStringRoundTrip(n: nat)
    ensures AllDigits(NatToString(n))
    ensures DecimalValue(NatToString(n)) == n
    decreases n
  {
    NatToStringDigits(n);
    var s := NatToString(n);
    if n >= 10 {
      NatToStringRoundTrip(n / 10);
      assert s[..|s| - 1] == NatToString(n / 10);
    }
  }

  lemma NatToStringInjective(a: nat, b: nat)
    ensures NatToString(a) == NatToString(b) <==> a == b
  {
    NatToStringRoundTrip(a);
    NatToStringRoundTrip(b);
  }

  lemma IntToStringInjective(a: int, b: int)
    ensures IntToString(a) == IntToString(b) <==> a == b
  {
    if IntToString(a) == IntToString(b) {
      if a < 0 {
        assert IntToString(a)[1..] == NatToString(-a);
        assert IntToString(b)[1..] == NatToString(-b);
        NatToStringInjective(-a, -b);
      } else {
        NatToStringInjective(a, b);
      }
    }
  }

  /** Padded to two places, a number below 100 is its tens digit and its units digit. */
  lemma PaddedTwoDigits(n: nat)
    requires n < 100
    ensures PadStart2(NatToString(n)) == [DigitChar(n / 10), DigitChar(n % 10)]
  {
    if n >= 10 {
      assert NatToString(n / 10) == [DigitChar(n / 10)];
    } else {
      assert NatToString(n) == [DigitChar(n)];
    }
  }

  lemma Regroup(ys: string, mm: string, dd: string)
    requires |mm| == 2 && |dd| == 2
    ensures ys + "-" + mm + "-" + dd == ys + ['-', mm[0], mm[1], '-', dd[0], dd[1]]
  {
  }

  /** The six characters after the year: a dash, two month digits, a dash and two
      day digits. */
  function Tail(month: int, day: nat): (t: string)
    requires 0 <= month < 12 && day < 100
    ensures |t| == 6
  {
    ['-', DigitChar((month + 1) / 10), DigitChar((month + 1) % 10),
     '-', DigitChar(day / 10), DigitChar(day % 10)]
  }

  lemma SplitAt(ys: string, t: string)
    ensures (ys + t)[..|ys|] == ys && (ys + t)[|ys|..] == t
  {
  }

  lemma TailInjective(m1: int, d1: nat, m2: int, d2: nat)
    requires 0 <= m1 < 12 && 0 <= m2 < 12 && d1 < 100 && d2 < 100
    requires Tail(m1, d1) == Tail(m2, d2)
    ensures m1 == m2 && d1 == d2
  {
    var t1, t2 := Tail(m1, d1), Tail(m2, d2);
    assert t1[1] == t2[1] && t1[2] == t2[2] && t1[4] == t2[4] && t1[5] == t2[5];
    assert (m1 + 1) / 10 == (m2 + 1) / 10 && (m1 + 1) % 10 == (m2 + 1) % 10;
    assert d1 / 10 == d2 / 10 && d1 % 10 == d2 % 10;
  }

  /** Two labels are equal exactly when they name the same year, month and day; in
      particular distinct days of one month get distinct labels. */
  lemma DateStringInjective(y1: int, m1: int, d1: nat, y2: int, m2: int, d2: nat)
    requires 0 <= m1 < 12 && 0 <= m2 < 12 && d1 < 100 && d2 < 100
    ensures DateString(y1, m1, d1) == DateString(y2, m2, d2) <==> (y1, m1, d1) == (y2, m2, d2)
  {
    if DateString(y1, m1, d1) == DateString(y2, m2, d2) {
      var ys1, ys2 := IntToString(y1), IntToString(y2);
      var t1, t2 := Tail(m1, d1), Tail(m2, d2);
      assert ys1 + t1 == ys2 + t2;
      assert ys1 == ys2 && t1 == t2 by {
        SplitAt(ys1, t1);
        SplitAt(ys2, t2);
      }
      IntToStringInjective(y1, y2);
      TailInjective(m1, d1, m2, d2);
    }
  }

  /** The label as one string: the year as written followed by the tail. */
  lemma DateStringParts(year: int, month: int, day: nat)
    requires 0 <= month < 12 && day < 100
    ensures DateString(year, month, day) == IntToString(year) + Tail(month, day)
  {
    var s, k := DateString(year, month, day), |IntToString(year)|;
    assert s == s[..k] + s[k..];
  }

  /** Two days of one month with the same label are the same day. */
  lemma SameLabelSameDay(year: int, month: int, d1: nat, d2: nat)
    requires 0 <= month < 12 && d1 < 100 && d2 < 100
    requires DateString(year, month, d1) == DateString(year, month, d2)
    ensures d1 == d2
  {
    DateStringInjective(year, month, d1, year, month, d2);
  }

  /** Exactly four digits for the years 1000..9999. */
  lemma FourDigitYear(year: nat)
    requires 1000 <= year <= 9999
    ensures |NatToString(year)| == 4
  {
    assert NatToString(year / 1000) == [DigitChar(year / 1000)];
    assert |NatToString(year / 100)| == 2;
    assert |NatToString(year / 10)| == 3;
  }

  /** Two digits read back as the number they were made from. */
  lemma TwoDigitsValue(n: nat)
    requires n < 100
    ensures DecimalValue([DigitChar(n / 10), DigitChar(n % 10)]) == n
  {
    var s := [DigitChar(n / 10), DigitChar(n % 10)];
    assert s[..1] == [DigitChar(n / 10)];
    assert s[..1][..0] == [];
    assert DecimalValue(s[..1]) == n / 10;
  }

  /** A four-digit year field followed by the tail has the ISO shape. */
  lemma IsoShape(ys: string, month: int, day: nat)
    requires |ys| == 4 && AllDigits(ys) && 0 <= month < 12 && day < 100
    ensures var s := ys + Tail(month, day);
      && |s| == 10 && s[4] == '-' && s[7] == '-'
      && s[..4] == ys && AllDigits(s[5..7]) && AllDigits(s[8..])
      && DecimalValue(s[5..7]) == month + 1
      && DecimalValue(s[8..]) == day
  {
    var s := ys + Tail(month, day);
    assert s[5..7] == [DigitChar((month + 1) / 10), DigitChar((month + 1) % 10)];
    assert s[8..] == [DigitChar(day / 10), DigitChar(day % 10)];
    TwoDigitsValue(month + 1);
    TwoDigitsValue(day);
  }

  /** For a four-digit year the label has the shape YYYY-MM-DD, and its three digit
      fields read back as the year, the 1-based month and the day. */
  lemma DateStringIsIsoForFourDigitYears(year: int, month: int, day: nat)
    requires 1000 <= year <= 9999 && 0 <= month < 12 && day < 100
    ensures var s := DateString(year, month, day);
      && |s| == 10 && s[4] == '-' && s[7] == '-'
      && AllDigits(s[..4]) && AllDigits(s[5..7]) && AllDigits(s[8..])
      && DecimalValue(s[..4]) == year
      && DecimalValue(s[5..7]) == month + 1
      && DecimalValue(s[8..]) == day
  {
    var ys := IntToString(year);
    DateStringParts(year, month, day);
    FourDigitYear(year);
    NatToStringRoundTrip(year);
    IsoShape(ys, month, day);
  }

  /** The year is not padded: below 1000 it has fewer than four digits and the
      label is shorter than the ten characters of YYYY-MM-DD. */
  lemma ShortYearsAreNotPadded(year: int, month: int, day: nat)
    requires 0 <= year < 1000 && 0 <= month < 12 && day < 100
    ensures |DateString(year, month, day)| < 10
  {
    assert |NatToString(year)| <= 3 by {
      if year >= 10 {
        assert |NatToString(year / 10)| <= 2 by {
          if year >= 100 {
            assert NatToString(year / 100) == [DigitChar(year / 100)];
          }
        }
      }
    }
  }

  /** A negative year is labelled with a leading minus sign. */
  lemma NegativeYearsHaveASign(year: int, month: int, day: nat)
    requires year < 0 && 0 <= month < 12
    ensures DateString(year, month, day)[0] == '-'
  {
  }
}
