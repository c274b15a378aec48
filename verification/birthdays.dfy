/**
 * Birthday arithmetic of lib/data.ts (`getDaysUntilBirthday`, `getHoursUntilBirthday`,
 * `isBirthdayToday`, `sortByUpcomingBirthday`) and `getAge` from components/app-main.tsx.
 * `now` stands for `new Date()`: the clock is a parameter, never read.
 */
module Birthdays {
  import opened Wrappers
  import opened Calendar
  import opened Sorting

  /** A wishlist entry as the display components receive it (lib/data.ts `WishlistItem`). */
  datatype DisplayItem = DisplayItem(id: string, title: string, price: real, url: string, purchased: bool, purchasedBy: Option<string>)

  /** A person as the display components receive it (lib/data.ts `Person`); `birthday` is a time value. */
  datatype Person = Person(id: string, name: string, avatar: string, birthday: int, age: int, role: Option<string>, wishlist: seq<DisplayItem>)

  /** `Math.ceil(a / 86400000)`; the quotient of two integers this size is exact in a double. */
  function CeilDays(a: int): (q: int)
    ensures (q - 1) * MsPerDay < a <= q * MsPerDay
  {
    -((-a) / MsPerDay)
  }

  /** JavaScript's `a % 86400000`: the remainder takes the sign of the dividend. */
  function JsRemDay(a: int): (r: int)
    ensures -MsPerDay < r < MsPerDay
    ensures a >= 0 ==> 0 <= r && (a - r) % MsPerDay == 0
    ensures a < 0 ==> r <= 0 && (a - r) % MsPerDay == 0
  {
    if a >= 0 then a % MsPerDay else -((-a) % MsPerDay)
  }

  /** The clock year and the next one are both read as full years by `new Date(y, m, d)`. */
  predicate OutsideTwoDigitWindow(y: int) {
    y < -1 || y > 99
  }

  /** The same condition on the clock itself: it reads a day of year 100 or later, or one before year -1. */
  predicate ClockOutsideTwoDigitWindow(now: int) {
    Day(now) >= DayFromYear(100) || Day(now) < DayFromYear(-1)
  }

  lemma ClockYearOutsideWindow(now: int)
    requires ClockOutsideTwoDigitWindow(now)
    ensures OutsideTwoDigitWindow(YearFromTime(now))
  {
    var y := YearFromTime(now);
    if -1 <= y <= 99 {
      DayFromYearMonotone(y + 1, 100);
      DayFromYearMonotone(-1, y);
      assert false;
    }
  }

  /** `new Date(year, birthday.getMonth(), birthday.getDate())`. */
  function OccurrenceIn(birthday: int, year: int): (t: int)
    ensures TimeWithinDay(t) == 0
    ensures Day(t) == MakeDay(FullYear(year), MonthFromTime(birthday), DateFromTime(birthday))
    ensures Day(t) >= DayFromYear(FullYear(year))
  {
    var m := MonthFromTime(birthday);
    var d := DateFromTime(birthday);
    DaysInMonthAtMost31(YearFromTime(birthday), m);
    MakeDayWithinYear(FullYear(year), m, d);
    NewDate(year, m, d)
  }

  /** Next year's occurrence falls on a later day than any day of this year. */
  lemma NextYearOccurrenceAhead(birthday: int, now: int)
    ensures Day(OccurrenceIn(birthday, YearFromTime(now) + 1)) > Day(now)
  {
    var y := YearFromTime(now);
    var today := Day(now);
    var next := Day(OccurrenceIn(birthday, y + 1));
    assert today < DayFromYear(y + 1);
    FullYearNotEarlier(y + 1);
    assert DayFromYear(FullYear(y + 1)) <= next;
  }

  /**
   * The midnight the source counts down to: this year's occurrence, or next year's when
   * this year's is strictly before the current instant (lib/data.ts:192-196).
   */
  function NextBirthday(birthday: int, now: int): (t: int)
    ensures t >= now
    ensures TimeWithinDay(t) == 0
  {
    var thisYear := OccurrenceIn(birthday, YearFromTime(now));
    if thisYear < now then
      NextYearAhead(birthday, now);
      OccurrenceIn(birthday, YearFromTime(now) + 1)
    else thisYear
  }

  /** Next year's occurrence is a later instant than now. */
  lemma NextYearAhead(birthday: int, now: int)
    ensures OccurrenceIn(birthday, YearFromTime(now) + 1) > now
  {
    NextYearOccurrenceAhead(birthday, now);
    LaterDayLaterTime(OccurrenceIn(birthday, YearFromTime(now) + 1), now);
  }

  /** `getDaysUntilBirthday`: whole days, rounded up, from now to the next birthday midnight. */
  function DaysUntilBirthday(birthday: int, now: int): (r: int)
    ensures r >= 0
    ensures r == Day(NextBirthday(birthday, now)) - Day(now)
  {
    var next := NextBirthday(birthday, now);
    var r := CeilDays(next - now);
    assert next == Day(next) * MsPerDay;
    assert now == Day(now) * MsPerDay + TimeWithinDay(now);
    r
  }

  /** The countdown never exceeds one leap year (for clocks outside years -1..99). */
  lemma DaysUntilBirthdayRange(birthday: int, now: int)
    requires ClockOutsideTwoDigitWindow(now)
    ensures 0 <= DaysUntilBirthday(birthday, now) <= 366
  {
    ClockYearOutsideWindow(now);
    var y := YearFromTime(now);
    var m := MonthFromTime(birthday);
    var d := DateFromTime(birthday);
    DaysInMonthAtMost31(YearFromTime(birthday), m);
    OccurrenceWithinYear(y, m, d, Day(now));
  }

  /** A birthday still ahead this year is counted in plain calendar days from today. */
  lemma DaysUntilLaterThisYear(birthday: int, now: int)
    requires ClockOutsideTwoDigitWindow(now)
    requires OccurrenceIn(birthday, YearFromTime(now)) >= now
    ensures DaysUntilBirthday(birthday, now)
         == MakeDay(YearFromTime(now), MonthFromTime(birthday), DateFromTime(birthday)) - Day(now)
  {
    ClockYearOutsideWindow(now);
  }

  /** `getHoursUntilBirthday`: the whole hours left in the countdown's last partial day. */
  function HoursUntilBirthday(birthday: int, now: int): (h: int)
    ensures 0 <= h <= 23
    ensures h * MsPerHour <= (NextBirthday(birthday, now) - now) % MsPerDay < (h + 1) * MsPerHour
  {
    HourOfDay(NextBirthday(birthday, now) - now);
    JsRemDay(NextBirthday(birthday, now) - now) / MsPerHour
  }

  /** The hour of its day that a forward offset ends in. */
  lemma HourOfDay(diff: int)
    requires diff >= 0
    ensures 0 <= JsRemDay(diff) / MsPerHour <= 23
    ensures JsRemDay(diff) / MsPerHour * MsPerHour <= diff % MsPerDay < (JsRemDay(diff) / MsPerHour + 1) * MsPerHour
  {
    var rem := JsRemDay(diff);
    assert rem == diff % MsPerDay;
  }

  /** `isBirthdayToday`: month and date agree with today's; the years play no part. */
  predicate IsBirthdayToday(birthday: int, now: int) {
    MonthFromTime(birthday) == MonthFromTime(now) && DateFromTime(birthday) == DateFromTime(now)
  }

  /** Only the calendar day of each instant matters to isBirthdayToday. */
  lemma IsBirthdayTodayIgnoresTimeOfDay(b1: int, b2: int, now1: int, now2: int)
    requires Day(b1) == Day(b2) && Day(now1) == Day(now2)
    ensures IsBirthdayToday(b1, now1) == IsBirthdayToday(b2, now2)
  {
  }

  /**
   * When the birthday's date exists in the current year, isBirthdayToday holds exactly when
   * this year's occurrence falls on today's date.
   */
  lemma IsBirthdayTodayIffOccurrenceIsToday(birthday: int, now: int)
    requires !(0 <= YearFromTime(now) <= 99)
    requires ValidDate(YearFromTime(now), MonthFromTime(birthday), DateFromTime(birthday))
    ensures IsBirthdayToday(birthday, now) <==> Day(OccurrenceIn(birthday, YearFromTime(now))) == Day(now)
  {
    var y := YearFromTime(now);
    var m := MonthFromTime(birthday);
    var d := DateFromTime(birthday);
    DayComponentsRoundTrip(Day(now));
    MakeDayComponents(y, m, d);
  }

  /**
   * On the birthday itself, once midnight has passed, this year's occurrence is already in
   * the past, so the countdown rolls over to next year: 365 or 366, never 0 (lib/data.ts:194).
   */
  lemma BirthdayTodayRollsOver(birthday: int, now: int)
    requires ClockOutsideTwoDigitWindow(now)
    requires IsBirthdayToday(birthday, now)
    requires TimeWithinDay(now) > 0
    ensures DaysUntilBirthday(birthday, now) == 365 || DaysUntilBirthday(birthday, now) == 366
  {
    ClockYearOutsideWindow(now);
    var y := YearFromTime(now);
    var m := MonthFromTime(birthday);
    var d := DateFromTime(birthday);
    DayComponentsRoundTrip(Day(now));
    assert MakeDay(y, m, d) == Day(now);
    MakeDayNextYear(y, m, d);
  }

  /** A February 29 birthday is counted down to March 1 in a common year (MakeDay day overflow). */
  lemma LeapDayBirthdayFallsOnMarchFirst(birthday: int, year: int)
    requires MonthFromTime(birthday) == 1 && DateFromTime(birthday) == 29
    requires !(0 <= year <= 99) && !InLeapYear(year)
    ensures Day(OccurrenceIn(birthday, year)) == MakeDay(year, 2, 1)
    ensures MonthFromDay(Day(OccurrenceIn(birthday, year))) == 2
    ensures DateFromDay(Day(OccurrenceIn(birthday, year))) == 1
  {
    MakeDayComponents(year, 2, 1);
  }

  /** Corrected countdown: compares this year's occurrence with today's date, not the current instant. */
  function DaysUntilBirthdayFromToday(birthday: int, now: int): int {
    var today := Day(now);
    var thisYear := Day(OccurrenceIn(birthday, YearFromTime(now)));
    if thisYear < today then Day(OccurrenceIn(birthday, YearFromTime(now) + 1)) - today else thisYear - today
  }

  /** The corrected countdown never goes below 0: next year's occurrence is always ahead of today. */
  lemma DaysUntilBirthdayFromTodayNonNegative(birthday: int, now: int)
    ensures DaysUntilBirthdayFromToday(birthday, now) >= 0
  {
    NextYearOccurrenceAhead(birthday, now);
  }

  /** The corrected countdown reads 0 all through the birthday and stays within a year. */
  lemma DaysUntilBirthdayFromTodayCorrect(birthday: int, now: int)
    requires ClockOutsideTwoDigitWindow(now)
    ensures IsBirthdayToday(birthday, now) ==> DaysUntilBirthdayFromToday(birthday, now) == 0
    ensures 0 <= DaysUntilBirthdayFromToday(birthday, now) <= 365
  {
    DaysUntilBirthdayFromTodayNonNegative(birthday, now);
    if IsBirthdayToday(birthday, now) {
      BirthdayTodayCountsZero(birthday, now);
    }
    DaysUntilBirthdayFromTodayAtMostAYear(birthday, now);
  }

  /**
   * When the birthday's month and date exist in the current year, the corrected countdown is 0
   * exactly on the birthday, and the countdown as written is 0 only on the birthday.
   */
  lemma ZeroCountdownIffBirthdayToday(birthday: int, now: int)
    requires ClockOutsideTwoDigitWindow(now)
    requires ValidDate(YearFromTime(now), MonthFromTime(birthday), DateFromTime(birthday))
    ensures DaysUntilBirthdayFromToday(birthday, now) == 0 <==> IsBirthdayToday(birthday, now)
    ensures DaysUntilBirthday(birthday, now) == 0 ==> IsBirthdayToday(birthday, now)
  {
    ClockYearOutsideWindow(now);
    NextYearOccurrenceAhead(birthday, now);
    IsBirthdayTodayIffOccurrenceIsToday(birthday, now);
    if IsBirthdayToday(birthday, now) {
      BirthdayTodayCountsZero(birthday, now);
    }
  }

  lemma BirthdayTodayCountsZero(birthday: int, now: int)
    requires ClockOutsideTwoDigitWindow(now)
    requires IsBirthdayToday(birthday, now)
    ensures DaysUntilBirthdayFromToday(birthday, now) == 0
  {
    ClockYearOutsideWindow(now);
    var y := YearFromTime(now);
    DayComponentsRoundTrip(Day(now));
    DaysInMonthAtMost31(YearFromTime(birthday), MonthFromTime(birthday));
  }

  lemma DaysUntilBirthdayFromTodayAtMostAYear(birthday: int, now: int)
    requires ClockOutsideTwoDigitWindow(now)
    ensures DaysUntilBirthdayFromToday(birthday, now) <= 365
  {
    ClockYearOutsideWindow(now);
    var y := YearFromTime(now);
    var m := MonthFromTime(birthday);
    var d := DateFromTime(birthday);
    DaysInMonthAtMost31(YearFromTime(birthday), m);
    OccurrenceWithinYear(y, m, d, Day(now));
    FromTodayByOccurrences(birthday, now, MakeDay(y, m, d), MakeDay(y + 1, m, d));
  }

  /** The corrected countdown in terms of the two candidate occurrences' day numbers. */
  lemma FromTodayByOccurrences(birthday: int, now: int, thisYear: int, nextYear: int)
    requires ClockOutsideTwoDigitWindow(now)
    requires thisYear == MakeDay(YearFromTime(now), MonthFromTime(birthday), DateFromTime(birthday))
    requires nextYear == MakeDay(YearFromTime(now) + 1, MonthFromTime(birthday), DateFromTime(birthday))
    ensures DaysUntilBirthdayFromToday(birthday, now) == (if thisYear < Day(now) then nextYear else thisYear) - Day(now)
  {
    ClockYearOutsideWindow(now);
  }

  /** The sort key of `sortByUpcomingBirthday`. */
  function UpcomingKey(now: int): Person -> int {
    (p: Person) => DaysUntilBirthday(p.birthday, now)
  }

  /**
   * `sortByUpcomingBirthday`: a sorted copy; the same people, nearest birthday first,
   * people with equal countdowns left in their original order.
   */
  function SortByUpcomingBirthday(friends: seq<Person>, now: int): (r: seq<Person>)
    ensures multiset(r) == multiset(friends)
    ensures SortedBy(r, UpcomingKey(now))
    ensures StablePermutation(r, friends, UpcomingKey(now))
  {
    SortByKey(friends, UpcomingKey(now))
  }

  /** Calendar fields compared in order: year, then month, then date. */
  predicate DateLe(y1: int, m1: int, d1: int, y2: int, m2: int, d2: int) {
    y1 < y2 || (y1 == y2 && (m1 < m2 || (m1 == m2 && d1 <= d2)))
  }

  /**
   * `getAge`: the year difference, less one when this year's birthday has not come yet;
   * that is, the number of anniversaries of the birth date that today has reached.
   */
  function Age(birth: int, now: int): (a: int)
    ensures DateLe(YearFromTime(birth) + a, MonthFromTime(birth), DateFromTime(birth),
                   YearFromTime(now), MonthFromTime(now), DateFromTime(now))
    ensures !DateLe(YearFromTime(birth) + a + 1, MonthFromTime(birth), DateFromTime(birth),
                    YearFromTime(now), MonthFromTime(now), DateFromTime(now))
  {
    var age := YearFromTime(now) - YearFromTime(birth);
    var monthDiff := MonthFromTime(now) - MonthFromTime(birth);
    if monthDiff < 0 || (monthDiff == 0 && DateFromTime(now) < DateFromTime(birth)) then age - 1 else age
  }

  /** Later day numbers have later calendar fields. */
  lemma DayOrderIsDateOrder(n1: int, n2: int)
    requires n1 <= n2
    ensures DateLe(YearFromDay(n1), MonthFromDay(n1), DateFromDay(n1), YearFromDay(n2), MonthFromDay(n2), DateFromDay(n2))
  {
    YearFromDayMonotone(n1, n2);
    if YearFromDay(n1) == YearFromDay(n2) {
      SameYearDateOrder(n1, n2);
    }
  }

  lemma SameYearDateOrder(n1: int, n2: int)
    requires n1 <= n2 && YearFromDay(n1) == YearFromDay(n2)
    ensures MonthFromDay(n1) < MonthFromDay(n2) || (MonthFromDay(n1) == MonthFromDay(n2) && DateFromDay(n1) <= DateFromDay(n2))
  {
    var y := YearFromDay(n1);
    YearLength(y);
    MonthOfDayInYearMonotone(DayWithinYear(n1), DayWithinYear(n2), InLeapYear(y));
  }

  /** Nobody born before now has a negative age. */
  lemma AgeNonNegative(birth: int, now: int)
    requires birth <= now
    ensures Age(birth, now) >= 0
  {
    DayOrderIsDateOrder(Day(birth), Day(now));
  }
}
