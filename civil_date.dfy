/**
 * Calendar dates as the ranker uses them: parsing an observation date written
 * `YYYY-MM-DD` (the `%Y-%m-%d` format of `strptime`), the proleptic Gregorian
 * day number of a date (`date.toordinal`), and the signed number of days from
 * March 20 of the same year, which anchors the Sun's right ascension.
 */
module CivilDate {
  import opened Wrappers

  datatype Date = Date(year: int, month: int, day: int)

  /** The years a date can have (MINYEAR and MAXYEAR of the datetime module). */
  const MinYear := 1
  const MaxYear := 9999

  /** The month and day on which the Sun's right ascension is taken to be zero. */
  const EquinoxMonth := 3
  const EquinoxDay := 20

  predicate IsLeapYear(y: int) {
    y % 4 == 0 && (y % 100 != 0 || y % 400 == 0)
  }

  function DaysInMonth(y: int, m: int): (n: int)
    requires 1 <= m <= 12
    ensures 28 <= n <= 31
    ensures n == 29 <==> m == 2 && IsLeapYear(y)
  {
    if m == 2 then (if IsLeapYear(y) then 29 else 28)
    else if m == 4 || m == 6 || m == 9 || m == 11 then 30
    else 31
  }

  function DaysInYear(y: int): int {
    if IsLeapYear(y) then 366 else 365
  }

  /** A date the datetime module can represent. */
  predicate ValidDate(d: Date) {
    && MinYear <= d.year <= MaxYear
    && 1 <= d.month <= 12
    && 1 <= d.day <= DaysInMonth(d.year, d.month)
  }

  /** Days of the year that come before the first day of month `m`. */
  function DaysBeforeMonth(y: int, m: int): (n: int)
    requires 1 <= m <= 12
    ensures m == 1 ==> n == 0
    ensures m > 1 ==> n == DaysBeforeMonth(y, m - 1) + DaysInMonth(y, m - 1)
  {
    [0, 31, 59, 90, 120, 151, 181, 212, 243, 273, 304, 334][m - 1]
      + (if m > 2 && IsLeapYear(y) then 1 else 0)
  }

  /** Days from January 1 of year 1 to January 1 of year `y`. */
  function DaysBeforeYear(y: int): int
    requires y >= 1
  {
    var k := y - 1;
    k * 365 + k / 4 - k / 100 + k / 400
  }

  /** Day number of a date, 1 for January 1 of year 1. */
  function Ordinal(d: Date): (n: int)
    requires ValidDate(d)
    ensures n >= 1
  {
    DaysBeforeYear(d.year) + DaysBeforeMonth(d.year, d.month) + d.day
  }

  /** The calendar day after `d`. */
  function NextDay(d: Date): (e: Date)
    requires ValidDate(d) && d != Date(MaxYear, 12, 31)
    ensures ValidDate(e)
  {
    if d.day < DaysInMonth(d.year, d.month) then Date(d.year, d.month, d.day + 1)
    else if d.month < 12 then Date(d.year, d.month + 1, 1)
    else Date(d.year + 1, 1, 1)
  }

  /** Going from `k` to `k + 1` raises `k / c` by one exactly when `c` divides `k + 1`. */
  lemma DivStep(k: int, c: int)
    requires k >= 0 && (c == 4 || c == 100 || c == 400)
    ensures (k + 1) / c == k / c + (if (k + 1) % c == 0 then 1 else 0)
  {
  }

  lemma DaysBeforeNextYear(y: int)
    requires y >= 1
    ensures DaysBeforeYear(y + 1) == DaysBeforeYear(y) + DaysInYear(y)
  {
    DivStep(y - 1, 4);
    DivStep(y - 1, 100);
    DivStep(y - 1, 400);
    assert y % 100 == 0 ==> y % 4 == 0 by {
      if y % 100 == 0 {
        assert y == 100 * (y / 100);
        assert y == 4 * (25 * (y / 100));
      }
    }
    assert y % 400 == 0 ==> y % 100 == 0 by {
      if y % 400 == 0 {
        assert y == 400 * (y / 400);
        assert y == 100 * (4 * (y / 400));
      }
    }
  }

  /** Day numbers go up by exactly one from each day to the next. */
  lemma OrdinalNextDay(d: Date)
    requires ValidDate(d) && d != Date(MaxYear, 12, 31)
    ensures Ordinal(NextDay(d)) == Ordinal(d) + 1
  {
    if d.day < DaysInMonth(d.year, d.month) {
    } else if d.month < 12 {
    } else {
      DaysBeforeNextYear(d.year);
    }
  }

  /**
   * Signed number of days from March 20 of the date's own year to the date:
   * the difference of the two day numbers, as a `timedelta` gives it.
   */
  function DayOffset(d: Date): (k: int)
    requires ValidDate(d)
    ensures -79 <= k <= 286
    ensures k == 0 <==> d.month == EquinoxMonth && d.day == EquinoxDay
    ensures k < 0 <==> d.month < EquinoxMonth || (d.month == EquinoxMonth && d.day < EquinoxDay)
  {
    Ordinal(d) - Ordinal(Date(d.year, EquinoxMonth, EquinoxDay))
  }

  /** Within one year the offset grows by exactly one per calendar day. */
  lemma DayOffsetNextDay(d: Date)
    requires ValidDate(d) && !(d.month == 12 && d.day == 31)
    ensures NextDay(d).year == d.year
    ensures DayOffset(NextDay(d)) == DayOffset(d) + 1
  {
    OrdinalNextDay(d);
  }

  /** On January 1 the offset starts again from the year's own March 20. */
  lemma DayOffsetNewYear(y: int)
    requires MinYear <= y <= MaxYear
    ensures DayOffset(Date(y, 1, 1)) == if IsLeapYear(y) then -79 else -78
  {
  }

  // ---------------------------------------------------------------------------
  // Parsing `%Y-%m-%d`

  predicate IsDigit(c: char) {
    '0' <= c <= '9'
  }

  function DigitValue(c: char): (v: int)
    requires IsDigit(c)
    ensures 0 <= v <= 9
  {
    c as int - '0' as int
  }

  function DigitChar(v: int): (c: char)
    requires 0 <= v <= 9
    ensures IsDigit(c) && DigitValue(c) == v
  {
    ('0' as int + v) as char
  }

  /** `%Y`: exactly four digits. */
  predicate YearField(s: string) {
    |s| == 4 && IsDigit(s[0]) && IsDigit(s[1]) && IsDigit(s[2]) && IsDigit(s[3])
  }

  /** `%m`: one of `1[0-2]`, `0[1-9]` or `[1-9]`. */
  predicate MonthField(s: string) {
    || (|s| == 1 && '1' <= s[0] <= '9')
    || (|s| == 2 && s[0] == '0' && '1' <= s[1] <= '9')
    || (|s| == 2 && s[0] == '1' && '0' <= s[1] <= '2')
  }

  /** `%d`: one of `3[01]`, `[12][0-9]`, `0[1-9]`, `[1-9]` or a space then `[1-9]`. */
  predicate DayField(s: string) {
    || (|s| == 1 && '1' <= s[0] <= '9')
    || (|s| == 2 && (s[0] == '0' || s[0] == ' ') && '1' <= s[1] <= '9')
    || (|s| == 2 && (s[0] == '1' || s[0] == '2') && IsDigit(s[1]))
    || (|s| == 2 && s[0] == '3' && (s[1] == '0' || s[1] == '1'))
  }

  function YearValue(s: string): (v: int)
    requires YearField(s)
    ensures 0 <= v <= 9999
  {
    1000 * DigitValue(s[0]) + 100 * DigitValue(s[1]) + 10 * DigitValue(s[2]) + DigitValue(s[3])
  }

  /** Value of a month or day field; a leading `0` or space counts as zero tens. */
  function FieldValue(s: string): (v: int)
    requires MonthField(s) || DayField(s)
    ensures MonthField(s) ==> 1 <= v <= 12
    ensures DayField(s) ==> 1 <= v <= 31
  {
    if |s| == 1 then DigitValue(s[0])
    else (if s[0] == ' ' then 0 else DigitValue(s[0])) * 10 + DigitValue(s[1])
  }

  /** Position of the first `c` in `s`, or `|s|` when there is none. */
  function FirstIndexOf(s: string, c: char): (k: nat)
    ensures k <= |s|
    ensures k < |s| ==> s[k] == c
    ensures forall i :: 0 <= i < k ==> s[i] != c
  {
    if s == [] then 0
    else if s[0] == c then 0
    else 1 + FirstIndexOf(s[1..], c)
  }

  /**
   * `strptime(s, "%Y-%m-%d").date()`: None where strptime raises, either because
   * the text does not match the format in full or because the fields do not name
   * a day of the calendar (year 0, February 30).
   */
  function ParseDate(s: string): (r: Option<Date>)
    ensures r.Some? ==> ValidDate(r.value)
    ensures r.Some? ==> |s| >= 8 && YearField(s[..4]) && s[4] == '-' && r.value.year == YearValue(s[..4])
  {
    if |s| < 5 || !YearField(s[..4]) || s[4] != '-' then None
    else
      var rest := s[5..];
      var k := FirstIndexOf(rest, '-');
      if k == |rest| then None
      else
        var monthText, dayText := rest[..k], rest[k + 1..];
        if !MonthField(monthText) || !DayField(dayText) then None
        else
          var d := Date(YearValue(s[..4]), FieldValue(monthText), FieldValue(dayText));
          if ValidDate(d) then Some(d) else None
  }

  function TwoDigits(v: int): (s: string)
    requires 0 <= v <= 99
    ensures |s| == 2 && IsDigit(s[0]) && IsDigit(s[1])
  {
    [DigitChar(v / 10), DigitChar(v % 10)]
  }

  function FourDigits(v: int): (s: string)
    requires 0 <= v <= 9999
    ensures YearField(s)
  {
    [DigitChar(v / 10 / 10 / 10), DigitChar(v / 10 / 10 % 10), DigitChar(v / 10 % 10), DigitChar(v % 10)]
  }

  /** The zero-padded `YYYY-MM-DD` text of a date. */
  function FormatDate(d: Date): (s: string)
    requires 0 <= d.year <= 9999 && 1 <= d.month <= 12 && 1 <= d.day <= 31
    ensures |s| == 10 && s[4] == '-' && s[7] == '-'
  {
    FourDigits(d.year) + "-" + TwoDigits(d.month) + "-" + TwoDigits(d.day)
  }

  lemma FourDigitsValue(v: int)
    requires 0 <= v <= 9999
    ensures YearValue(FourDigits(v)) == v
  {
    var q1 := v / 10;
    var q2 := q1 / 10;
    var q3 := q2 / 10;
    assert v == 10 * q1 + v % 10;
    assert q1 == 10 * q2 + q1 % 10;
    assert q2 == 10 * q3 + q2 % 10;
  }

  lemma TwoDigitsMonth(m: int)
    requires 1 <= m <= 12
    ensures MonthField(TwoDigits(m)) && FieldValue(TwoDigits(m)) == m
  {
  }

  lemma TwoDigitsDay(d: int)
    requires 1 <= d <= 31
    ensures DayField(TwoDigits(d)) && FieldValue(TwoDigits(d)) == d
  {
  }

  /**
   * Every zero-padded text with a month in 1..12 and a day in 1..31 parses back
   * to its own fields exactly when they name a day of the calendar, and is
   * rejected otherwise.
   */
  lemma ParseFormattedDate(d: Date)
    requires 0 <= d.year <= 9999 && 1 <= d.month <= 12 && 1 <= d.day <= 31
    ensures ParseDate(FormatDate(d)) == if ValidDate(d) then Some(d) else None
  {
    var s := FormatDate(d);
    var yearText, monthText, dayText := FourDigits(d.year), TwoDigits(d.month), TwoDigits(d.day);
    assert s[..4] == yearText;
    FourDigitsValue(d.year);
    TwoDigitsMonth(d.month);
    TwoDigitsDay(d.day);
    var rest := s[5..];
    assert rest == monthText + "-" + dayText;
    assert FirstIndexOf(rest, '-') == 2 by {
      assert rest[0] != '-' && rest[1] != '-' && rest[2] == '-';
      assert FirstIndexOf(rest[1..], '-') == 1 + FirstIndexOf(rest[2..], '-');
    }
    assert rest[..2] == monthText;
    assert rest[3..] == dayText;
  }

  /** The reference date itself has offset zero (2022-03-20). */
  lemma EquinoxOffsetExample()
    ensures ParseDate("2022-03-20") == Some(Date(2022, 3, 20))
    ensures DayOffset(Date(2022, 3, 20)) == 0
  {
    ParseFormattedDate(Date(2022, 3, 20));
    assert FormatDate(Date(2022, 3, 20)) == "2022-03-20";
  }
}
