/** Calendar dates as the page stores them: `YYYY-MM-DD` strings (the
    extended calendar-date format of ISO 8601:2004 section 4.1.2.2), read on
    the proleptic Gregorian calendar. A date is numbered by the days elapsed
    since 0000-01-01, so the page's `daysBetween` becomes a subtraction and
    `setDate(getDate() + 1)` becomes the successor day with month and year
    carry. */
module Dates {
  import opened Wrappers
  import opened Text

  datatype Date = Date(year: int, month: int, day: int)

  predicate IsLeapYear(y: int) {
    y % 4 == 0 && (y % 100 != 0 || y % 400 == 0)
  }

  function DaysInYear(y: int): int {
    if IsLeapYear(y) then 366 else 365
  }

  function DaysInMonth(y: int, m: int): (n: int)
    requires 1 <= m <= 12
    ensures 28 <= n <= 31
  {
    if m == 2 then (if IsLeapYear(y) then 29 else 28)
    else if m == 4 || m == 6 || m == 9 || m == 11 then 30
    else 31
  }

  /** A real calendar day whose year fits the four-digit format. */
  predicate Valid(d: Date) {
    && 0 <= d.year <= 9999
    && 1 <= d.month <= 12
    && 1 <= d.day <= DaysInMonth(d.year, d.month)
  }

  /** Days of year `y` that lie before the first of month `m` (13 stands for
      the end of the year), from the cumulative table. */
  function DaysBeforeMonth(y: int, m: int): int
    requires 1 <= m <= 13
  {
    var table := [0, 31, 59, 90, 120, 151, 181, 212, 243, 273, 304, 334, 365];
    table[m - 1] + (if IsLeapYear(y) && m > 2 then 1 else 0)
  }

  /** Leap years among 0, 1, ..., y - 1 (year 0 is one). */
  function LeapYearsBefore(y: nat): int {
    (y + 3) / 4 - (y + 99) / 100 + (y + 399) / 400
  }

  function YearStart(y: nat): int {
    365 * y + LeapYearsBefore(y)
  }

  /** Days from 0000-01-01 to `d`. */
  function DayNumber(d: Date): int
    requires Valid(d)
  {
    YearStart(d.year) + DaysBeforeMonth(d.year, d.month) + d.day - 1
  }

  /** The next calendar day: what `setDate(getDate() + 1)` does, carrying
      into the next month and the next year. */
  function Succ(d: Date): (n: Date)
    requires Valid(d)
    ensures n.year <= 9999 ==> Valid(n) && DayNumber(n) == DayNumber(d) + 1
    ensures n.year > 9999 <==> d == Date(9999, 12, 31)
  {
    if d.day < DaysInMonth(d.year, d.month) then Date(d.year, d.month, d.day + 1)
    else if d.month < 12 then MonthTableStep(d.year, d.month); Date(d.year, d.month + 1, 1)
    else YearStartStep(d.year); Date(d.year + 1, 1, 1)
  }

  // ---------------------------------------------------------------------------
  // The day numbering
  // ---------------------------------------------------------------------------

  /** The cumulative month table agrees with the month lengths. */
  lemma MonthTableStep(y: int, m: int)
    requires 1 <= m <= 12
    ensures DaysBeforeMonth(y, m + 1) == DaysBeforeMonth(y, m) + DaysInMonth(y, m)
    ensures DaysBeforeMonth(y, 1) == 0 && DaysBeforeMonth(y, 13) == DaysInYear(y)
  {
  }

  /** One year further on is one year's length further on. */
  lemma YearStartStep(y: nat)
    ensures YearStart(y + 1) == YearStart(y) + DaysInYear(y)
  {
    assert (y + 4) / 4 - (y + 3) / 4 == (if y % 4 == 0 then 1 else 0);
    assert (y + 100) / 100 - (y + 99) / 100 == (if y % 100 == 0 then 1 else 0);
    assert (y + 400) / 400 - (y + 399) / 400 == (if y % 400 == 0 then 1 else 0);
  }

  lemma {:induction false} YearStartMonotone(y1: nat, y2: nat)
    requires y1 < y2
    ensures YearStart(y1 + 1) <= YearStart(y2)
    decreases y2 - y1
  {
    if y1 + 1 < y2 {
      YearStartStep(y1 + 1);
      YearStartMonotone(y1 + 1, y2);
    }
  }

  lemma {:induction false} MonthTableMonotone(y: int, m1: int, m2: int)
    requires 1 <= m1 < m2 <= 13
    ensures DaysBeforeMonth(y, m1) + DaysInMonth(y, m1) <= DaysBeforeMonth(y, m2)
    decreases m2 - m1
  {
    MonthTableStep(y, m1);
    if m1 + 1 < m2 {
      MonthTableStep(y, m1 + 1);
      MonthTableMonotone(y, m1 + 1, m2);
    }
  }

  /** A day number falls inside its own year. */
  lemma DayNumberInYear(d: Date)
    requires Valid(d)
    ensures YearStart(d.year) <= DayNumber(d) < YearStart(d.year) + DaysInYear(d.year)
  {
    if d.month < 12 {
      MonthTableMonotone(d.year, d.month, 13);
    }
    MonthTableStep(d.year, d.month);
  }

  /** Different days have different numbers. */
  lemma DayNumberInjective(d1: Date, d2: Date)
    requires Valid(d1) && Valid(d2)
    requires DayNumber(d1) == DayNumber(d2)
    ensures d1 == d2
  {
    DayNumberInYear(d1);
    DayNumberInYear(d2);
    YearStartStep(d1.year);
    YearStartStep(d2.year);
    if d1.year < d2.year {
      YearStartMonotone(d1.year, d2.year);
    } else if d2.year < d1.year {
      YearStartMonotone(d2.year, d1.year);
    }
    var y := d1.year;
    if d1.month < d2.month {
      MonthTableMonotone(y, d1.month, d2.month);
    } else if d2.month < d1.month {
      MonthTableMonotone(y, d2.month, d1.month);
    }
  }

  /** Later days have larger numbers, and the numbering is contiguous. */
  lemma DayNumberOrder(d1: Date, d2: Date)
    requires Valid(d1) && Valid(d2)
    ensures DayNumber(d1) < DayNumber(d2) <==>
      (d1.year, d1.month, d1.day) != (d2.year, d2.month, d2.day) &&
      (d1.year < d2.year || (d1.year == d2.year &&
        (d1.month < d2.month || (d1.month == d2.month && d1.day < d2.day))))
  {
    DayNumberInYear(d1);
    DayNumberInYear(d2);
    YearStartStep(d1.year);
    YearStartStep(d2.year);
    if d1.year < d2.year {
      YearStartMonotone(d1.year, d2.year);
    } else if d2.year < d1.year {
      YearStartMonotone(d2.year, d1.year);
    } else if d1.month < d2.month {
      MonthTableMonotone(d1.year, d1.month, d2.month);
    } else if d2.month < d1.month {
      MonthTableMonotone(d1.year, d2.month, d1.month);
    }
  }

  // ---------------------------------------------------------------------------
  // The YYYY-MM-DD text form
  // ---------------------------------------------------------------------------

  /** The date part of `toISOString()`. */
  function Format(d: Date): (s: string)
    requires Valid(d)
    ensures |s| == 10 && s[4] == '-' && s[7] == '-'
  {
    PadDigits(d.year, 4) + "-" + PadDigits(d.month, 2) + "-" + PadDigits(d.day, 2)
  }

  /** Reads `YYYY-MM-DD`; `None` is JavaScript's Invalid Date, for text that
      is not of that shape or names no real day. */
  function Parse(s: string): (r: Option<Date>)
    ensures r.Some? ==> Valid(r.value)
  {
    if |s| != 10 || s[4] != '-' || s[7] != '-' then None
    else
      var ys, ms, ds := s[..4], s[5..7], s[8..];
      if !(AllDigits(ys) && AllDigits(ms) && AllDigits(ds)) then None
      else
        var d := Date(NatValue(ys), NatValue(ms), NatValue(ds));
        if Valid(d) then Some(d) else None
  }

  /** Reading back a formatted date gives the date. */
  lemma ParseFormat(d: Date)
    requires Valid(d)
    ensures Parse(Format(d)) == Some(d)
  {
    var s := Format(d);
    assert Pow10(2) == 100 && Pow10(4) == 10000;
    assert s[..4] == PadDigits(d.year, 4);
    assert s[5..7] == PadDigits(d.month, 2);
    assert s[8..] == PadDigits(d.day, 2);
    NatValueOfPadDigits(d.year, 4);
    NatValueOfPadDigits(d.month, 2);
    NatValueOfPadDigits(d.day, 2);
  }

  /** A string that parses is exactly the formatting of what it parses to:
      there is one spelling per day. */
  lemma FormatParse(s: string)
    requires Parse(s).Some?
    ensures Format(Parse(s).value) == s
  {
    var ys, ms, ds := s[..4], s[5..7], s[8..];
    ParsedFields(s);
    PadDigitsOfNatValue(ys);
    PadDigitsOfNatValue(ms);
    PadDigitsOfNatValue(ds);
  }

  /** The pieces of a string that parses. */
  lemma ParsedFields(s: string)
    requires Parse(s).Some?
    ensures |s| == 10 && AllDigits(s[..4]) && AllDigits(s[5..7]) && AllDigits(s[8..])
    ensures Parse(s).value == Date(NatValue(s[..4]), NatValue(s[5..7]), NatValue(s[8..]))
    ensures s == s[..4] + "-" + s[5..7] + "-" + s[8..]
  {
  }

  /** The page's `daysBetween`: whole calendar days from the first date to the
      second, `None` (JavaScript's NaN) when either string is not a date. */
  function DaysBetween(from: string, to: string): (r: Option<int>)
    ensures r.Some? <==> Parse(from).Some? && Parse(to).Some?
  {
    match (Parse(from), Parse(to))
    case (Some(a), Some(b)) => Some(DayNumber(b) - DayNumber(a))
    case _ => None
  }

  /** A formatted successor day is one day later, across month and year
      ends. */
  lemma DaysBetweenSucc(d: Date)
    requires Valid(d) && d != Date(9999, 12, 31)
    ensures Valid(Succ(d))
    ensures DaysBetween(Format(d), Format(Succ(d))) == Some(1)
  {
    ParseFormat(d);
    ParseFormat(Succ(d));
  }

  /** `daysBetween` of two formatted days is the difference of their
      numbers. */
  lemma DaysBetweenFormatted(a: Date, b: Date)
    requires Valid(a) && Valid(b)
    ensures DaysBetween(Format(a), Format(b)) == Some(DayNumber(b) - DayNumber(a))
  {
    ParseFormat(a);
    ParseFormat(b);
  }
}
