/**
 * The date-only form "YYYY-MM-DD" of ECMA-262's Date Time String Format: how a birthday
 * column reaches the client, how `new Date(s)` reads it (as UTC midnight), and how
 * `toISOString()` writes a Date back.
 */
module IsoDate {
  import opened Wrappers
  import opened Calendar
  import opened Text

  function Pow10(w: nat): (p: nat)
    ensures p >= 1
  {
    if w == 0 then 1 else 10 * Pow10(w - 1)
  }

  predicate IsDigit(c: char) {
    '0' <= c <= '9'
  }

  predicate AllDigits(s: string) {
    forall i :: 0 <= i < |s| ==> IsDigit(s[i])
  }

  function DigitChar(d: int): (c: char)
    requires 0 <= d <= 9
    ensures IsDigit(c)
  {
    ('0' as int + d) as char
  }

  /** The last `w` decimal digits of `n`, zero-padded on the left. */
  function Digits(n: nat, w: nat): (s: string)
    ensures |s| == w
    ensures AllDigits(s)
  {
    if w == 0 then ""
    else
      var s := Digits(n / 10, w - 1) + [DigitChar(n % 10)];
      assert forall i :: 0 <= i < |s| ==> IsDigit(s[i]) by {
        forall i | 0 <= i < |s| ensures IsDigit(s[i]) {
          if i < w - 1 { assert s[i] == Digits(n / 10, w - 1)[i]; }
        }
      }
      s
  }

  /** How many decimal digits `n` has. */
  function Width(n: nat): (w: nat)
    ensures w >= 1 && n < Pow10(w)
  {
    if n < 10 then 1 else 1 + Width(n / 10)
  }

  /** `String(n)` for a natural number: its digits without leading zeros. */
  function NatText(n: nat): (s: string)
    ensures AllDigits(s) && |s| >= 1
  {
    Digits(n, Width(n))
  }

  /** The number a string of decimal digits denotes. */
  function DigitsValue(s: string): (v: nat)
    requires AllDigits(s)
    ensures v < Pow10(|s|)
  {
    if |s| == 0 then 0
    else
      var init := s[..|s| - 1];
      assert AllDigits(init) by {
        forall i | 0 <= i < |init| ensures IsDigit(init[i]) { assert init[i] == s[i]; }
      }
      DigitsValue(init) * 10 + (s[|s| - 1] as int - '0' as int)
  }

  /** Reading back `w` written digits gives the number, when it fits in `w` digits. */
  lemma {:induction false} DigitsRoundTrip(n: nat, w: nat)
    requires n < Pow10(w)
    ensures DigitsValue(Digits(n, w)) == n
  {
    if w > 0 {
      var s := Digits(n, w);
      assert s[..w - 1] == Digits(n / 10, w - 1);
      DigitsRoundTrip(n / 10, w - 1);
    }
  }

  /** Writing the value of a digit string back at its own width gives the same string. */
  lemma {:induction false} DigitsOfValue(s: string)
    requires AllDigits(s)
    ensures Digits(DigitsValue(s), |s|) == s
  {
    if |s| > 0 {
      var init := s[..|s| - 1];
      assert AllDigits(init) by {
        forall i | 0 <= i < |init| ensures IsDigit(init[i]) { assert init[i] == s[i]; }
      }
      var v := DigitsValue(s);
      assert v / 10 == DigitsValue(init) && v % 10 == s[|s| - 1] as int - '0' as int;
      DigitsOfValue(init);
      assert s == init + [s[|s| - 1]];
    }
  }
  /** `String(n)` reads back as `n`, so different numbers have different texts. */
  lemma NatTextRoundTrip(n: nat)
    ensures DigitsValue(NatText(n)) == n
  {
    DigitsRoundTrip(n, Width(n));
  }

  lemma NatTextInjective(a: nat, b: nat)
    requires NatText(a) == NatText(b)
    ensures a == b
  {
    NatTextRoundTrip(a);
    NatTextRoundTrip(b);
  }


  /** The year field: four digits for 0..9999, otherwise a sign and six digits (extended year). */
  function YearText(y: int): (s: string)
    requires -999_999 <= y <= 999_999
    ensures 0 <= y <= 9999 ==> |s| == 4 && AllDigits(s)
    ensures !(0 <= y <= 9999) ==> |s| == 7
  {
    if 0 <= y <= 9999 then Digits(y, 4)
    else if y < 0 then "-" + Digits(-y, 6)
    else "+" + Digits(y, 6)
  }

  /** "YYYY-MM-DD" for a year, a 0-based month and a date. */
  function DateText(y: int, m: int, d: int): string
    requires -999_999 <= y <= 999_999
    requires 0 <= m <= 11 && 1 <= d <= 31
  {
    YearText(y) + "-" + Digits(m + 1, 2) + "-" + Digits(d, 2)
  }

  /** The calendar-date portion of `toISOString()` (UTC). */
  function IsoDatePart(t: int): string
    requires ValidTime(t)
  {
    ValidTimeYearRange(t);
    DaysInMonthAtMost31(YearFromTime(t), MonthFromTime(t));
    DateText(YearFromTime(t), MonthFromTime(t), DateFromTime(t))
  }

  /** The "HH:mm:ss.sssZ" portion of `toISOString()`. */
  function IsoTimePart(t: int): string {
    var ms := TimeWithinDay(t);
    Digits(ms / MsPerHour, 2) + ":" + Digits(ms / 60_000 % 60, 2) + ":" + Digits(ms / 1000 % 60, 2)
      + "." + Digits(ms % 1000, 3) + "Z"
  }

  /** `Date.prototype.toISOString` (section 15.9.5.43). */
  function ToIsoString(t: int): string
    requires ValidTime(t)
  {
    IsoDatePart(t) + "T" + IsoTimePart(t)
  }

  /** `toISOString().split("T")[0]` is exactly the date portion. */
  lemma IsoSplitIsDatePart(t: int)
    requires ValidTime(t)
    ensures SplitFirst(ToIsoString(t), 'T') == IsoDatePart(t)
  {
    var d := IsoDatePart(t);
    assert 'T' !in d by {
      ValidTimeYearRange(t);
      var y := YearFromTime(t);
      var ys := YearText(y);
      var ms := Digits(MonthFromTime(t) + 1, 2);
      var ds := Digits(DateFromTime(t), 2);
      assert d == ys + "-" + ms + "-" + ds;
      assert 'T' !in ms && 'T' !in ds;
      if 0 <= y <= 9999 {
        assert 'T' !in ys;
      } else {
        assert ys[1..] == Digits(if y < 0 then -y else y, 6);
        assert ys[0] != 'T';
      }
    }
    assert ToIsoString(t) == d + ['T'] + IsoTimePart(t);
    SplitFirstAt(d, 'T', IsoTimePart(t));
  }

  /**
   * `new Date(s)` for a date-only string (section 15.9.1.15): UTC midnight of that date, or
   * `None` (an Invalid Date) when `s` is not "YYYY-MM-DD" naming a real calendar date.
   */
  function ParseIsoDate(s: string): (r: Option<int>)
    ensures r.Some? ==> TimeWithinDay(r.value) == 0
  {
    if |s| == 10 && AllDigits(s[0..4]) && s[4] == '-' && AllDigits(s[5..7]) && s[7] == '-' && AllDigits(s[8..10]) then
      var y := DigitsValue(s[0..4]);
      var mo := DigitsValue(s[5..7]);
      var d := DigitsValue(s[8..10]);
      if 1 <= mo <= 12 && ValidDate(y, mo - 1, d) then Some(Midnight(MakeDay(y, mo - 1, d))) else None
    else None
  }

  /** Day numbers of years 0..9999 are valid Date time values. */
  lemma FourDigitYearsAreValidTimes(y: int, m: int, d: int)
    requires 0 <= y <= 9999 && 0 <= m <= 11 && 1 <= d <= 31
    ensures ValidTime(Midnight(MakeDay(y, m, d)))
  {
    MakeDayWithinYear(y, m, d);
    DayFromYearMonotone(0, y);
    DayFromYearMonotone(y, 10_000);
  }

  /** The date portion of the midnight of a valid date in years 0..9999 spells that date. */
  lemma IsoDatePartOfDate(y: int, m: int, d: int)
    requires 0 <= y <= 9999 && ValidDate(y, m, d)
    ensures d <= 31
    ensures ValidTime(Midnight(MakeDay(y, m, d)))
    ensures IsoDatePart(Midnight(MakeDay(y, m, d))) == DateText(y, m, d)
  {
    DaysInMonthAtMost31(y, m);
    var t := Midnight(MakeDay(y, m, d));
    FourDigitYearsAreValidTimes(y, m, d);
    MakeDayComponents(y, m, d);
    assert YearFromTime(t) == y && MonthFromTime(t) == m && DateFromTime(t) == d;
  }

  /** A parsed date, written back with `toISOString().split("T")[0]`, is the original text. */
  lemma ParseThenFormat(s: string)
    requires ParseIsoDate(s).Some?
    ensures ValidTime(ParseIsoDate(s).value)
    ensures IsoDatePart(ParseIsoDate(s).value) == s
  {
    ParsedShape(s);
    var ys, ms, ds := s[0..4], s[5..7], s[8..10];
    var y, mo, d := DigitsValue(ys), DigitsValue(ms), DigitsValue(ds);
    IsoDatePartOfDate(y, mo - 1, d);
    assert YearText(y) == ys by { DigitsOfValue(ys); }
    assert Digits(mo - 1 + 1, 2) == ms by { DigitsOfValue(ms); }
    assert Digits(d, 2) == ds by { DigitsOfValue(ds); }
    DateTextPieces(s);
  }

  lemma DateTextPieces(s: string)
    requires |s| == 10 && s[4] == '-' && s[7] == '-'
    ensures s == s[0..4] + "-" + s[5..7] + "-" + s[8..10]
  {
  }

  /** The date portion of a Date in years 0..9999 parses back to that day's midnight. */
  lemma FormatThenParse(t: int)
    requires ValidTime(t) && 0 <= YearFromTime(t) <= 9999
    ensures ParseIsoDate(IsoDatePart(t)) == Some(Midnight(Day(t)))
  {
    DayComponentsRoundTrip(Day(t));
    DateTextParses(YearFromTime(t), MonthFromTime(t), DateFromTime(t));
  }

  /** A four-digit-year date text parses back to that date's midnight. */
  lemma DateTextParses(y: int, m: int, d: int)
    requires 0 <= y <= 9999 && ValidDate(y, m, d)
    ensures ParseIsoDate(DateText(y, m, d)) == Some(Midnight(MakeDay(y, m, d)))
  {
    DaysInMonthAtMost31(y, m);
    DateTextFields(y, m, d);
    ParseDateFields(DateText(y, m, d), y, m + 1, d);
  }

  /** The fields of a four-digit-year date text, by position. */
  lemma DateTextFields(y: int, m: int, d: int)
    requires 0 <= y <= 9999 && 0 <= m <= 11 && 1 <= d <= 31
    ensures |DateText(y, m, d)| == 10 && DateText(y, m, d)[4] == '-' && DateText(y, m, d)[7] == '-'
    ensures DateText(y, m, d)[0..4] == Digits(y, 4)
    ensures DateText(y, m, d)[5..7] == Digits(m + 1, 2)
    ensures DateText(y, m, d)[8..10] == Digits(d, 2)
  {
    var ys, ms, ds := Digits(y, 4), Digits(m + 1, 2), Digits(d, 2);
    var s := DateText(y, m, d);
    assert s == ys + "-" + ms + "-" + ds;
  }

  /** What a successful parse implies about the text. */
  lemma ParsedShape(s: string)
    requires ParseIsoDate(s).Some?
    ensures |s| == 10 && AllDigits(s[0..4]) && s[4] == '-' && AllDigits(s[5..7]) && s[7] == '-' && AllDigits(s[8..10])
    ensures DigitsValue(s[0..4]) <= 9999
    ensures 1 <= DigitsValue(s[5..7]) <= 12
    ensures ValidDate(DigitsValue(s[0..4]), DigitsValue(s[5..7]) - 1, DigitsValue(s[8..10]))
    ensures ParseIsoDate(s).value == Midnight(MakeDay(DigitsValue(s[0..4]), DigitsValue(s[5..7]) - 1, DigitsValue(s[8..10])))
  {
    assert Pow10(4) == 10000;
  }

  /** A string spelling the given fields in "YYYY-MM-DD" parses to that date's midnight. */
  lemma ParseDateFields(s: string, y: nat, mo: nat, d: nat)
    requires y < 10000 && 1 <= mo <= 12 && d < 100 && ValidDate(y, mo - 1, d)
    requires |s| == 10 && s[4] == '-' && s[7] == '-'
    requires s[0..4] == Digits(y, 4) && s[5..7] == Digits(mo, 2) && s[8..10] == Digits(d, 2)
    ensures ParseIsoDate(s) == Some(Midnight(MakeDay(y, mo - 1, d)))
  {
    assert Pow10(4) == 10000 && Pow10(2) == 100;
    DigitsRoundTrip(y, 4);
    DigitsRoundTrip(mo, 2);
    DigitsRoundTrip(d, 2);
  }
}
