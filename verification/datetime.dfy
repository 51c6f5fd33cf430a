/** Calendar dates and local timestamps in the `YYYY-MM-DDTHH:mm:ss`
    form the booking form composes, the order `new Date(a) >= new Date(b)`
    compares them by, and the `YYYY-MM-DD` formatting of today's date. */
module DateTime {
  import opened Wrappers
  import JsNumber

  /** A calendar date; `month` is 1-based. */
  datatype Date = Date(year: int, month: int, day: int)

  datatype Clock = Clock(hour: int, minute: int, second: int)

  /** A local date-time, as `new Date("YYYY-MM-DDTHH:mm:ss")` reads it. */
  datatype Timestamp = Timestamp(date: Date, clock: Clock)

  predicate IsLeapYear(y: int)
  {
    (y % 4 == 0 && y % 100 != 0) || y % 400 == 0
  }

  function DaysInMonth(y: int, m: int): (n: int)
    ensures 28 <= n <= 31
  {
    if m == 2 then (if IsLeapYear(y) then 29 else 28)
    else if m == 4 || m == 6 || m == 9 || m == 11 then 30
    else 31
  }

  predicate ValidDate(d: Date)
  {
    0 <= d.year <= 9999 && 1 <= d.month <= 12 && 1 <= d.day <= DaysInMonth(d.year, d.month)
  }

  predicate ValidClock(c: Clock)
  {
    0 <= c.hour <= 23 && 0 <= c.minute <= 59 && 0 <= c.second <= 59
  }

  predicate ValidTimestamp(t: Timestamp)
  {
    ValidDate(t.date) && ValidClock(t.clock)
  }

  /** A non-empty run of decimal digits, read as a number. */
  function Number(s: string): Option<nat>
  {
    if |s| > 0 && JsNumber.AllDigits(s) then Some(JsNumber.DecimalValue(s)) else None
  }

  /** `YYYY-MM-DD`, accepted only when it names a real calendar day. */
  function ParseDate(s: string): (r: Option<Date>)
    ensures r.Some? ==> ValidDate(r.value)
    ensures r.Some? ==> |s| == 10
  {
    if |s| == 10 && s[4] == '-' && s[7] == '-' then
      match (Number(s[..4]), Number(s[5..7]), Number(s[8..]))
      case (Some(y), Some(m), Some(d)) =>
        if ValidDate(Date(y, m, d)) then Some(Date(y, m, d)) else None
      case _ => None
    else None
  }

  /** `HH:mm:ss` on the 24-hour clock. */
  function ParseClock(s: string): (r: Option<Clock>)
    ensures r.Some? ==> ValidClock(r.value)
  {
    if |s| == 8 && s[2] == ':' && s[5] == ':' then
      match (Number(s[..2]), Number(s[3..5]), Number(s[6..]))
      case (Some(h), Some(m), Some(sec)) =>
        if ValidClock(Clock(h, m, sec)) then Some(Clock(h, m, sec)) else None
      case _ => None
    else None
  }

  /** `HH:mm`, the value of a time input; seconds are zero. */
  function ParseTimeOfDay(s: string): (r: Option<Clock>)
    ensures r.Some? ==> ValidClock(r.value) && r.value.second == 0
    ensures r.Some? ==> |s| == 5
  {
    if |s| == 5 && s[2] == ':' then
      match (Number(s[..2]), Number(s[3..]))
      case (Some(h), Some(m)) =>
        if ValidClock(Clock(h, m, 0)) then Some(Clock(h, m, 0)) else None
      case _ => None
    else None
  }

  /** `new Date(s)` for the date-time form without an offset; `None` is an
      Invalid Date. */
  function ParseTimestamp(s: string): (r: Option<Timestamp>)
    ensures r.Some? ==> ValidTimestamp(r.value)
  {
    if |s| == 19 && s[10] == 'T' then
      match (ParseDate(s[..10]), ParseClock(s[11..]))
      case (Some(d), Some(c)) => Some(Timestamp(d, c))
      case _ => None
    else None
  }

  /** `a` is strictly earlier than `b`: the first field that differs,
      from the year down to the second, decides. */
  predicate Before(a: Timestamp, b: Timestamp)
  {
    if a.date.year != b.date.year then a.date.year < b.date.year
    else if a.date.month != b.date.month then a.date.month < b.date.month
    else if a.date.day != b.date.day then a.date.day < b.date.day
    else if a.clock.hour != b.clock.hour then a.clock.hour < b.clock.hour
    else if a.clock.minute != b.clock.minute then a.clock.minute < b.clock.minute
    else a.clock.second < b.clock.second
  }

  // ------------------------------------------------------------ elapsed time

  function DaysInYear(y: int): int
  {
    if IsLeapYear(y) then 366 else 365
  }

  /** Days from 1 January of year 0 to 1 January of year `y`. */
  function YearStart(y: nat): nat
  {
    if y == 0 then 0 else YearStart(y - 1) + DaysInYear(y - 1)
  }

  /** Days from 1 January to the first of month `m` of year `y`. */
  function MonthStart(y: int, m: nat): nat
    requires m <= 13
  {
    if m <= 1 then 0 else MonthStart(y, m - 1) + DaysInMonth(y, m - 1)
  }

  /** Seconds elapsed since 0000-01-01T00:00:00: what the time values
      `new Date` produces differ by, for local times. */
  function Seconds(t: Timestamp): int
    requires ValidTimestamp(t)
  {
    var days := YearStart(t.date.year) + MonthStart(t.date.year, t.date.month) + t.date.day - 1;
    days * 86400 + t.clock.hour * 3600 + t.clock.minute * 60 + t.clock.second
  }

  lemma {:induction false} MonthStartBounds(y: int, m: nat, n: nat)
    requires 1 <= m <= n <= 13
    ensures MonthStart(y, m) <= MonthStart(y, n)
    ensures m < n ==> MonthStart(y, m) + DaysInMonth(y, m) <= MonthStart(y, n)
    decreases n - m
  {
    if m < n {
      MonthStartBounds(y, m + 1, n);
    }
  }

  lemma YearFits(y: int)
    ensures MonthStart(y, 13) == DaysInYear(y)
  {
    assert MonthStart(y, 2) == 31;
    assert MonthStart(y, 3) == 31 + DaysInMonth(y, 2);
    assert MonthStart(y, 5) == MonthStart(y, 3) + 31 + 30;
    assert MonthStart(y, 7) == MonthStart(y, 5) + 31 + 30;
    assert MonthStart(y, 9) == MonthStart(y, 7) + 31 + 31;
    assert MonthStart(y, 11) == MonthStart(y, 9) + 30 + 31;
    assert MonthStart(y, 13) == MonthStart(y, 11) + 30 + 31;
  }

  lemma {:induction false} YearStartGrows(y: nat, z: nat)
    requires y < z
    ensures YearStart(y) + DaysInYear(y) <= YearStart(z)
    decreases z - y
  {
    if y + 1 < z {
      YearStartGrows(y + 1, z);
    }
  }

  /** Seconds of `t` after the start of its day, and days before it. */
  lemma DayBounds(t: Timestamp)
    requires ValidTimestamp(t)
    ensures 0 <= Seconds(t) - (YearStart(t.date.year) + MonthStart(t.date.year, t.date.month) + t.date.day - 1) * 86400 < 86400
  {
  }

  lemma BeforeMeansFewerSeconds(a: Timestamp, b: Timestamp)
    requires ValidTimestamp(a) && ValidTimestamp(b)
    requires Before(a, b)
    ensures Seconds(a) < Seconds(b)
  {
    DayBounds(a);
    DayBounds(b);
    var ya, yb := a.date.year, b.date.year;
    if ya < yb {
      MonthStartBounds(ya, a.date.month, 13);
      YearFits(ya);
      YearStartGrows(ya, yb);
    } else if a.date.month < b.date.month {
      MonthStartBounds(ya, a.date.month, b.date.month);
    }
  }

  /** The field-by-field order is the order of elapsed time: comparing
      parsed timestamps with `Before` is comparing the time values. */
  lemma BeforeIffEarlier(a: Timestamp, b: Timestamp)
    requires ValidTimestamp(a) && ValidTimestamp(b)
    ensures Before(a, b) <==> Seconds(a) < Seconds(b)
  {
    if Before(a, b) {
      BeforeMeansFewerSeconds(a, b);
    } else if Before(b, a) {
      BeforeMeansFewerSeconds(b, a);
    } else {
      assert a == b;
    }
  }

  // ------------------------------------------------------------ formatting

  /** `getTodayDate` given the clock's `getFullYear`, `getMonth` (0-based)
      and `getDate`: the year as printed, month and day padded to two
      digits. */
  function FormatDate(year: int, month0: int, day: int): (r: string)
    ensures 0 <= year && 0 <= month0 <= 98 && 0 <= day <= 99 ==>
      var y := JsNumber.IntToString(year);
      && |r| == |y| + 6
      && r[..|y|] == y && r[|y|] == '-' && r[|y| + 3] == '-'
      && Number(r[|y| + 1..|y| + 3]) == Some(month0 + 1)
      && Number(r[|y| + 4..]) == Some(day)
  {
    var y := JsNumber.IntToString(year);
    var m := JsNumber.PadTwo(JsNumber.IntToString(month0 + 1));
    var d := JsNumber.PadTwo(JsNumber.IntToString(day));
    if 0 <= year && 0 <= month0 <= 98 && 0 <= day <= 99 then
      PaddedParts(month0 + 1, day);
      LayoutOf(y, m, d);
      y + "-" + m + "-" + d
    else
      y + "-" + m + "-" + d
  }

  lemma PaddedParts(month: nat, day: nat)
    requires month < 100 && day < 100
    ensures var m := JsNumber.PadTwo(JsNumber.IntToString(month));
            var d := JsNumber.PadTwo(JsNumber.IntToString(day));
      |m| == 2 && |d| == 2 && Number(m) == Some(month) && Number(d) == Some(day)
  {
    assert JsNumber.IntToString(month) == JsNumber.NatToString(month);
    assert JsNumber.IntToString(day) == JsNumber.NatToString(day);
    PaddedNumber(month);
    PaddedNumber(day);
  }

  /** Where the parts of `y-m-d` sit, for two-character `m` and `d`. */
  lemma LayoutOf(y: string, m: string, d: string)
    requires |m| == 2 && |d| == 2
    ensures var r := y + "-" + m + "-" + d;
      && |r| == |y| + 6
      && r[..|y|] == y && r[|y|] == '-' && r[|y| + 3] == '-'
      && r[|y| + 1..|y| + 3] == m && r[|y| + 4..] == d
  {
  }

  lemma {:induction false} NatToStringLength(n: nat)
    ensures n < 10 ==> |JsNumber.NatToString(n)| == 1
    ensures 10 <= n < 100 ==> |JsNumber.NatToString(n)| == 2
    ensures 100 <= n < 1000 ==> |JsNumber.NatToString(n)| == 3
    ensures 1000 <= n < 10000 ==> |JsNumber.NatToString(n)| == 4
  {
    if n >= 10 {
      NatToStringLength(n / 10);
    }
  }

  /** A one- or two-digit number padded to two digits reads back unchanged. */
  lemma PaddedNumber(n: nat)
    requires n < 100
    ensures |JsNumber.PadTwo(JsNumber.NatToString(n))| == 2
    ensures Number(JsNumber.PadTwo(JsNumber.NatToString(n))) == Some(n)
  {
    var s := JsNumber.NatToString(n);
    NatToStringLength(n);
    JsNumber.DecimalOfNatToString(n);
    if |s| == 1 {
      assert JsNumber.PadTwo(s) == "0" + s;
      JsNumber.DecimalLeadingZero(s);
    }
  }

  /** Reading `y-m-d` from its three parts. */
  lemma ParseDateParts(y: string, m: string, d: string, date: Date)
    requires |y| == 4 && |m| == 2 && |d| == 2 && ValidDate(date)
    requires Number(y) == Some(date.year) && Number(m) == Some(date.month) && Number(d) == Some(date.day)
    ensures ParseDate(y + "-" + m + "-" + d) == Some(date)
  {
    var s := y + "-" + m + "-" + d;
    assert s[..4] == y && s[4] == '-';
    assert s[5..7] == m && s[7] == '-';
    assert s[8..] == d;
  }

  /** A date formatted for a four-digit year parses back to the same day:
      the form's default dates are well-formed. */
  lemma FormatDateParses(year: int, month0: int, day: int)
    requires 1000 <= year <= 9999 && 0 <= month0 <= 11
    requires 1 <= day <= DaysInMonth(year, month0 + 1)
    ensures |FormatDate(year, month0, day)| == 10
    ensures ParseDate(FormatDate(year, month0, day)) == Some(Date(year, month0 + 1, day))
  {
    var y := JsNumber.NatToString(year);
    var m := JsNumber.PadTwo(JsNumber.NatToString(month0 + 1));
    var d := JsNumber.PadTwo(JsNumber.NatToString(day));
    FourDigitYear(year);
    PaddedNumber(month0 + 1);
    PaddedNumber(day);
    var s := FormatDate(year, month0, day);
    assert s == y + "-" + m + "-" + d by {
      assert JsNumber.IntToString(year) == y;
      assert JsNumber.IntToString(month0 + 1) == JsNumber.NatToString(month0 + 1);
      assert JsNumber.IntToString(day) == JsNumber.NatToString(day);
    }
    ParseDateParts(y, m, d, Date(year, month0 + 1, day));
    assert ParseDate(s) == Some(Date(year, month0 + 1, day));
  }

  lemma FourDigitYear(year: nat)
    requires 1000 <= year <= 9999
    ensures |JsNumber.NatToString(year)| == 4
    ensures Number(JsNumber.NatToString(year)) == Some(year)
  {
    NatToStringLength(year);
    JsNumber.DecimalOfNatToString(year);
  }

  // ------------------------------------------------------------ composition

  /** The string the booking form builds from a date and a time input:
      `${date}T${time}:00`. */
  function Compose(date: string, time: string): string
  {
    date + "T" + time + ":00"
  }

  /** The result of reading a date and a time of day together. */
  function Combine(d: Option<Date>, c: Option<Clock>): Option<Timestamp>
  {
    match (d, c)
    case (Some(dd), Some(cc)) => Some(Timestamp(dd, cc))
    case _ => None
  }

  lemma DigitsHaveNoT(x: string)
    requires Number(x).Some?
    ensures forall i :: 0 <= i < |x| ==> x[i] != 'T'
  {
  }

  lemma ParsedDateHasNoT(x: string)
    requires ParseDate(x).Some?
    ensures forall i :: 0 <= i < |x| ==> x[i] != 'T'
  {
    DigitsHaveNoT(x[..4]);
    DigitsHaveNoT(x[5..7]);
    DigitsHaveNoT(x[8..]);
    forall i | 0 <= i < |x| ensures x[i] != 'T' {
      if i < 4 { assert x[i] == x[..4][i]; }
      else if 5 <= i < 7 { assert x[i] == x[5..7][i - 5]; }
      else if 8 <= i { assert x[i] == x[8..][i - 8]; }
    }
  }

  lemma ParsedClockHasNoT(x: string)
    requires ParseClock(x).Some?
    ensures forall i :: 0 <= i < |x| ==> x[i] != 'T'
  {
    DigitsHaveNoT(x[..2]);
    DigitsHaveNoT(x[3..5]);
    DigitsHaveNoT(x[6..]);
    forall i | 0 <= i < |x| ensures x[i] != 'T' {
      if i < 2 { assert x[i] == x[..2][i]; }
      else if 3 <= i < 5 { assert x[i] == x[3..5][i - 3]; }
      else if 6 <= i { assert x[i] == x[6..][i - 6]; }
    }
  }

  /** A composed string parses exactly when its date and its time do, and
      then to their combination; in particular an empty date or time gives
      an Invalid Date. */
  lemma ComposeParses(date: string, time: string)
    ensures ParseTimestamp(Compose(date, time)) == Combine(ParseDate(date), ParseTimeOfDay(time))
  {
    var s := Compose(date, time);
    if |date| == 10 && |time| == 5 {
      assert s[..10] == date && s[10] == 'T';
      var c := s[11..];
      assert c == time + ":00";
      assert c[..2] == time[..2] && c[2] == time[2];
      assert c[3..5] == time[3..] && c[5] == ':';
      assert c[6..] == "00";
      assert Number("00") == Some(0) by {
        assert "00"[..1] == "0" && "0"[..0] == "";
      }
    } else if ParseTimestamp(s).Some? {
      assert s[|date|] == 'T';
      if |date| < 10 {
        assert s[..10][|date|] == 'T';
        ParsedDateHasNoT(s[..10]);
      } else if |date| > 10 {
        assert s[11..][|date| - 11] == 'T';
        ParsedClockHasNoT(s[11..]);
      }
    }
  }
}
