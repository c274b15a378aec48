/**
 * Date arithmetic of ECMA-262 5.1, section 15.9.1: time values are integer milliseconds
 * from 1970-01-01T00:00:00Z, days are exactly 86,400,000 ms, and local time is taken to be UTC.
 */
module Calendar {

  const MsPerDay: int := 86_400_000
  const MsPerHour: int := 3_600_000

  /** Largest time value magnitude a Date may hold (section 15.9.1.1). */
  const MaxTimeValue: int := 8_640_000_000_000_000

  /** A time value a Date object can hold (otherwise it is an Invalid Date). */
  predicate ValidTime(t: int) {
    -MaxTimeValue <= t <= MaxTimeValue
  }

  /** Day(t): the day number containing `t` (floor division; section 15.9.1.2). */
  function Day(t: int): int {
    t / MsPerDay
  }

  /** TimeWithinDay(t): milliseconds since that day's midnight. */
  function TimeWithinDay(t: int): (ms: int)
    ensures 0 <= ms < MsPerDay
    ensures t == Day(t) * MsPerDay + ms
  {
    t % MsPerDay
  }

  /** An instant on a later day is a later instant. */
  lemma LaterDayLaterTime(a: int, b: int)
    requires Day(a) > Day(b)
    ensures a > b
  {
    var ma := TimeWithinDay(a);
    var mb := TimeWithinDay(b);
  }

  /** MakeDate(day, 0): the time value of the start of day `n`. */
  function Midnight(n: int): (t: int)
    ensures Day(t) == n
    ensures TimeWithinDay(t) == 0
  {
    n * MsPerDay
  }

  function DaysInYear(y: int): int {
    if y % 4 != 0 then 365
    else if y % 100 != 0 then 366
    else if y % 400 != 0 then 365
    else 366
  }

  predicate InLeapYear(y: int) {
    DaysInYear(y) == 366
  }

  /** DayFromYear(y): the day number of January 1 of year `y` (section 15.9.1.3). */
  function DayFromYear(y: int): int {
    365 * (y - 1970) + (y - 1969) / 4 - (y - 1901) / 100 + (y - 1601) / 400
  }

  lemma DivStep4(a: int)
    ensures (a + 1) / 4 == a / 4 + (if (a + 1) % 4 == 0 then 1 else 0)
  {
  }

  lemma DivStep100(a: int)
    ensures (a + 1) / 100 == a / 100 + (if (a + 1) % 100 == 0 then 1 else 0)
  {
  }

  lemma DivStep400(a: int)
    ensures (a + 1) / 400 == a / 400 + (if (a + 1) % 400 == 0 then 1 else 0)
  {
  }

  /** Consecutive years start DaysInYear apart. */
  lemma DayFromYearStep(y: int)
    ensures DayFromYear(y + 1) == DayFromYear(y) + DaysInYear(y)
  {
    var a := (y - 1968) / 4 - (y - 1969) / 4;
    var b := (y - 1900) / 100 - (y - 1901) / 100;
    var c := (y - 1600) / 400 - (y - 1601) / 400;
    assert a == (if y % 4 == 0 then 1 else 0) by { LeapTerm4(y); }
    assert b == (if y % 100 == 0 then 1 else 0) by { LeapTerm100(y); }
    assert c == (if y % 400 == 0 then 1 else 0) by { LeapTerm400(y); }
    assert DayFromYear(y + 1) - DayFromYear(y) == 365 + a - b + c;
    DaysInYearTerms(y);
  }

  /** The Gregorian rule as a sum: every fourth year, except centuries, except every fourth century. */
  lemma DaysInYearTerms(y: int)
    ensures DaysInYear(y) == 365 + (if y % 4 == 0 then 1 else 0) - (if y % 100 == 0 then 1 else 0) + (if y % 400 == 0 then 1 else 0)
  {
    if y % 100 == 0 {
      var q := y / 100;
      assert y == 4 * (25 * q);
    }
    if y % 400 == 0 {
      var q := y / 400;
      assert y == 100 * (4 * q);
    }
  }

  lemma LeapTerm4(y: int)
    ensures (y - 1968) / 4 - (y - 1969) / 4 == (if y % 4 == 0 then 1 else 0)
  {
    DivStep4(y - 1969);
    ModShift4(y);
  }

  lemma LeapTerm100(y: int)
    ensures (y - 1900) / 100 - (y - 1901) / 100 == (if y % 100 == 0 then 1 else 0)
  {
    DivStep100(y - 1901);
    ModShift100(y);
  }

  lemma LeapTerm400(y: int)
    ensures (y - 1600) / 400 - (y - 1601) / 400 == (if y % 400 == 0 then 1 else 0)
  {
    DivStep400(y - 1601);
    ModShift400(y);
  }

  lemma ModShift4(y: int)
    ensures (y - 1968) % 4 == y % 4
  {
    assert y - 1968 == y + 4 * (-492);
  }

  lemma ModShift100(y: int)
    ensures (y - 1900) % 100 == y % 100
  {
    assert y - 1900 == y + 100 * (-19);
  }

  lemma ModShift400(y: int)
    ensures (y - 1600) % 400 == y % 400
  {
    assert y - 1600 == y + 400 * (-4);
  }

  /** Each year is at least 365 days after the previous one. */
  lemma {:induction false} DayFromYearMonotone(a: int, b: int)
    requires a <= b
    ensures DayFromYear(a) + 365 * (b - a) <= DayFromYear(b)
    decreases b - a
  {
    if a < b {
      DayFromYearMonotone(a, b - 1);
      DayFromYearStep(b - 1);
    }
  }

  /** A year at or below `y` whose first day is not after day `n`. */
  function YearAtOrBelow(n: int, y: int): (r: int)
    ensures r <= y
    ensures DayFromYear(r) <= n
    decreases if DayFromYear(y) > n then DayFromYear(y) - n else 0
  {
    if DayFromYear(y) <= n then y
    else
      DayFromYearStep(y - 1);
      YearAtOrBelow(n, y - 1)
  }

  /** Walks up from `y` to the year that contains day `n`. */
  function YearUpFrom(n: int, y: int): (r: int)
    requires DayFromYear(y) <= n
    ensures y <= r
    ensures DayFromYear(r) <= n < DayFromYear(r + 1)
    decreases n - DayFromYear(y)
  {
    DayFromYearStep(y);
    if n < DayFromYear(y + 1) then y else YearUpFrom(n, y + 1)
  }

  /** The year containing day `n`: the largest `y` with DayFromYear(y) <= n (section 15.9.1.3). */
  function YearFromDay(n: int): (y: int)
    ensures DayFromYear(y) <= n < DayFromYear(y + 1)
  {
    YearUpFrom(n, YearAtOrBelow(n, 1970))
  }

  /** Later days fall in the same or a later year. */
  lemma YearFromDayMonotone(n1: int, n2: int)
    requires n1 <= n2
    ensures YearFromDay(n1) <= YearFromDay(n2)
  {
    SpansOrdered(YearFromDay(n1), YearFromDay(n2), n1, n2);
  }

  /** A day in year `y1` no later than a day in year `y2` puts `y1` no later than `y2`. */
  lemma SpansOrdered(y1: int, y2: int, n1: int, n2: int)
    requires DayFromYear(y1) <= n1 <= n2 < DayFromYear(y2 + 1)
    ensures y1 <= y2
  {
    if y1 > y2 {
      DayFromYearMonotone(y2 + 1, y1);
    }
  }

  /** YearFromDay is the only year whose span contains `n`. */
  lemma YearFromDayUnique(n: int, y: int)
    requires DayFromYear(y) <= n < DayFromYear(y + 1)
    ensures YearFromDay(n) == y
  {
    var r := YearFromDay(n);
    if r < y {
      DayFromYearMonotone(r + 1, y);
    } else if r > y {
      DayFromYearMonotone(y + 1, r);
    }
  }

  /** Days of the year that precede month `m` (0-based; month 12 gives the year's length). */
  function CumDays(m: int, leap: bool): (c: int)
    requires 0 <= m <= 12
    ensures 0 <= c <= 366
  {
    var l := if leap then 1 else 0;
    if m == 0 then 0
    else if m == 1 then 31
    else if m == 2 then 59 + l
    else if m == 3 then 90 + l
    else if m == 4 then 120 + l
    else if m == 5 then 151 + l
    else if m == 6 then 181 + l
    else if m == 7 then 212 + l
    else if m == 8 then 243 + l
    else if m == 9 then 273 + l
    else if m == 10 then 304 + l
    else if m == 11 then 334 + l
    else 365 + l
  }

  function DaysInMonth(y: int, m: int): int
    requires 0 <= m <= 11
  {
    CumDays(m + 1, InLeapYear(y)) - CumDays(m, InLeapYear(y))
  }

  lemma DaysInMonthAtMost31(y: int, m: int)
    requires 0 <= m <= 11
    ensures 28 <= DaysInMonth(y, m) <= 31
  {
  }

  /** A calendar date with a 0-based month, as the Date getters report them. */
  predicate ValidDate(y: int, m: int, d: int) {
    0 <= m <= 11 && 1 <= d <= DaysInMonth(y, m)
  }

  /** DayWithinYear: days since January 1 of the day's own year. */
  function DayWithinYear(n: int): (k: int)
    ensures 0 <= k < DaysInYear(YearFromDay(n))
  {
    var y := YearFromDay(n);
    DayFromYearStep(y);
    n - DayFromYear(y)
  }

  /** The months' lengths add up to the year's. */
  lemma YearLength(y: int)
    ensures CumDays(12, InLeapYear(y)) == DaysInYear(y)
  {
  }

  /** The month that day `k` of a year (counted from 0) falls in. */
  function MonthOfDayInYear(k: int, leap: bool): (m: int)
    requires 0 <= k < CumDays(12, leap)
    ensures 0 <= m <= 11
    ensures CumDays(m, leap) <= k < CumDays(m + 1, leap)
  {
    if k < CumDays(1, leap) then 0
    else if k < CumDays(2, leap) then 1
    else if k < CumDays(3, leap) then 2
    else if k < CumDays(4, leap) then 3
    else if k < CumDays(5, leap) then 4
    else if k < CumDays(6, leap) then 5
    else if k < CumDays(7, leap) then 6
    else if k < CumDays(8, leap) then 7
    else if k < CumDays(9, leap) then 8
    else if k < CumDays(10, leap) then 9
    else if k < CumDays(11, leap) then 10
    else 11
  }

  /** Only one month's span contains a given day of the year. */
  lemma MonthOfDayInYearUnique(k: int, leap: bool, m: int)
    requires 0 <= m <= 11 && CumDays(m, leap) <= k < CumDays(m + 1, leap)
    ensures MonthOfDayInYear(k, leap) == m
  {
    var r := MonthOfDayInYear(k, leap);
    if r < m {
      CumDaysMonotone(r + 1, m, leap);
    } else if r > m {
      CumDaysMonotone(m + 1, r, leap);
    }
  }

  /** A later day of the year is in the same or a later month. */
  lemma MonthOfDayInYearMonotone(k1: int, k2: int, leap: bool)
    requires 0 <= k1 <= k2 < CumDays(12, leap)
    ensures MonthOfDayInYear(k1, leap) <= MonthOfDayInYear(k2, leap)
  {
    var m1, m2 := MonthOfDayInYear(k1, leap), MonthOfDayInYear(k2, leap);
    if m1 > m2 {
      CumDaysMonotone(m2 + 1, m1, leap);
    }
  }

  /** MonthFromTime, on day numbers (section 15.9.1.4); 0 is January. */
  function MonthFromDay(n: int): (m: int)
    ensures 0 <= m <= 11
    ensures CumDays(m, InLeapYear(YearFromDay(n))) <= DayWithinYear(n) < CumDays(m + 1, InLeapYear(YearFromDay(n)))
  {
    YearLength(YearFromDay(n));
    MonthOfDayInYear(DayWithinYear(n), InLeapYear(YearFromDay(n)))
  }

  /** DateFromTime, on day numbers (section 15.9.1.5): the 1-based day of the month. */
  function DateFromDay(n: int): (d: int)
    ensures ValidDate(YearFromDay(n), MonthFromDay(n), d)
  {
    DayWithinYear(n) - CumDays(MonthFromDay(n), InLeapYear(YearFromDay(n))) + 1
  }

  /** YearFromTime, MonthFromTime and DateFromTime (sections 15.9.1.3-15.9.1.5) on time values. */
  function YearFromTime(t: int): (y: int)
    ensures DayFromYear(y) <= Day(t) < DayFromYear(y + 1)
  {
    YearFromDay(Day(t))
  }

  function MonthFromTime(t: int): (m: int)
    ensures 0 <= m <= 11
  {
    MonthFromDay(Day(t))
  }

  function DateFromTime(t: int): (d: int)
    ensures 1 <= d <= 31
  {
    DaysInMonthAtMost31(YearFromDay(Day(t)), MonthFromDay(Day(t)));
    DateFromDay(Day(t))
  }

  /**
   * MakeDay(year, month, date) (section 15.9.1.12) for a month in 0..11: the day number of the
   * given calendar date. A date past the month's end runs on into the following month, which
   * is how `new Date(y, 1, 29)` lands on March 1 in a common year.
   */
  function MakeDay(year: int, month: int, date: int): int
    requires 0 <= month <= 11
  {
    DayFromYear(year) + CumDays(month, InLeapYear(year)) + date - 1
  }

  /** A day number splits into year, month and date, and MakeDay puts them back together. */
  lemma DayComponentsRoundTrip(n: int)
    ensures MakeDay(YearFromDay(n), MonthFromDay(n), DateFromDay(n)) == n
  {
    var y := YearFromDay(n);
    var m := MonthFromDay(n);
    var d := DateFromDay(n);
    var leap := InLeapYear(y);
    assert d == DayWithinYear(n) - CumDays(m, leap) + 1;
    assert DayWithinYear(n) == n - DayFromYear(y);
  }

  /** A valid calendar date is recovered from its day number. */
  lemma MakeDayComponents(y: int, m: int, d: int)
    requires ValidDate(y, m, d)
    ensures YearFromDay(MakeDay(y, m, d)) == y
    ensures MonthFromDay(MakeDay(y, m, d)) == m
    ensures DateFromDay(MakeDay(y, m, d)) == d
  {
    var n := MakeDay(y, m, d);
    var leap := InLeapYear(y);
    assert n == DayFromYear(y) + CumDays(m, leap) + d - 1;
    DayFromYearStep(y);
    assert CumDays(12, leap) == DaysInYear(y);
    CumDaysMonotone(m + 1, 12, leap);
    assert CumDays(m, leap) + d - 1 < CumDays(m + 1, leap);
    YearFromDayUnique(n, y);
    assert DayWithinYear(n) == CumDays(m, leap) + d - 1;
    MonthFromDayUnique(n, m);
    assert DateFromDay(n) == DayWithinYear(n) - CumDays(m, leap) + 1;
  }

  lemma CumDaysMonotone(a: int, b: int, leap: bool)
    requires 0 <= a <= b <= 12
    ensures CumDays(a, leap) <= CumDays(b, leap)
  {
  }

  lemma MonthFromDayUnique(n: int, m: int)
    requires 0 <= m <= 11
    requires CumDays(m, InLeapYear(YearFromDay(n))) <= DayWithinYear(n) < CumDays(m + 1, InLeapYear(YearFromDay(n)))
    ensures MonthFromDay(n) == m
  {
    MonthOfDayInYearUnique(DayWithinYear(n), InLeapYear(YearFromDay(n)), m);
  }

  /** Consecutive years' occurrences of the same month and date lie 365 or 366 days apart. */
  lemma MakeDayNextYear(y: int, m: int, d: int)
    requires 0 <= m <= 11
    ensures MakeDay(y + 1, m, d) - MakeDay(y, m, d) == 365 || MakeDay(y + 1, m, d) - MakeDay(y, m, d) == 366
  {
    DayFromYearStep(y);
    var l0 := if InLeapYear(y) then 1 else 0;
    var l1 := if InLeapYear(y + 1) then 1 else 0;
    CumDaysLeapShift(m, InLeapYear(y + 1), InLeapYear(y));
    assert MakeDay(y + 1, m, d) - MakeDay(y, m, d) == DaysInYear(y) + CumDays(m, InLeapYear(y + 1)) - CumDays(m, InLeapYear(y));
    assert DaysInYear(y) == 365 + l0;
  }

  /** Only the months after February depend on the leap day. */
  lemma CumDaysLeapShift(m: int, a: bool, b: bool)
    requires 0 <= m <= 12
    ensures CumDays(m, a) - CumDays(m, b) == (if m >= 2 then (if a then 1 else 0) - (if b then 1 else 0) else 0)
  {
  }

  /** A day number of year `y` (given by month and date up to 31) is within the year's first 366 days. */
  lemma MakeDayWithinYear(y: int, m: int, d: int)
    requires 0 <= m <= 11 && 1 <= d <= 31
    ensures DayFromYear(y) <= MakeDay(y, m, d) <= DayFromYear(y) + 365
  {
  }

  /** From a day of year `y`, the same month and date this year or next is at most a year away. */
  lemma OccurrenceWithinYear(y: int, m: int, d: int, today: int)
    requires 0 <= m <= 11 && 1 <= d <= 31
    requires DayFromYear(y) <= today < DayFromYear(y + 1)
    ensures MakeDay(y, m, d) - today <= 365
    ensures MakeDay(y, m, d) <= today ==> MakeDay(y + 1, m, d) - today <= 366
    ensures MakeDay(y, m, d) < today ==> MakeDay(y + 1, m, d) - today <= 365
  {
    MakeDayWithinYear(y, m, d);
    MakeDayNextYear(y, m, d);
  }

  /**
   * `new Date(year, month, date)` (section 15.9.3.1) in local time = UTC: a year in 0..99
   * is read as 1900 + year before MakeDay is applied.
   */
  function FullYear(year: int): (y: int)
    ensures 0 <= year <= 99 ==> y == 1900 + year
    ensures !(0 <= year <= 99) ==> y == year
  {
    if 0 <= year <= 99 then 1900 + year else year
  }

  /** Reading a two-digit year as 19xx never moves it earlier. */
  lemma FullYearNotEarlier(year: int)
    ensures DayFromYear(year) <= DayFromYear(FullYear(year))
  {
    if FullYear(year) != year {
      DayFromYearMonotone(year, FullYear(year));
    }
  }

  function NewDate(year: int, month: int, date: int): (t: int)
    requires 0 <= month <= 11
    ensures TimeWithinDay(t) == 0
    ensures Day(t) == MakeDay(FullYear(year), month, date)
  {
    Midnight(MakeDay(FullYear(year), month, date))
  }

  /** Every valid time value lies within years -271821..275760, so six digits always suffice. */
  lemma ValidTimeYearRange(t: int)
    requires ValidTime(t)
    ensures -999_999 <= YearFromTime(t) <= 999_999
  {
    var y := YearFromTime(t);
    if y > 999_999 {
      DayFromYearMonotone(1_000_000, y);
    }
    if y < -999_999 {
      DayFromYearMonotone(y + 1, -999_998);
    }
  }
}
