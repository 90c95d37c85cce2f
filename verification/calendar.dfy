/** Parsed timestamps and the calendar arithmetic the transform derives from
    them: the YYYYMMDD date key, quarter, weekday (pandas `dt` accessors) and
    the generator's integer age formula. */
module Calendar {
  import opened Common
  import opened Decimal

  /** A parsed `pd.to_datetime` value, to the second. */
  datatype Timestamp = Timestamp(year: int, month: int, day: int, hour: int, minute: int, second: int)

  /** A calendar date (`datetime.date`). */
  datatype Date = Date(year: int, month: int, day: int)

  predicate IsLeapYear(y: int)
  {
    y % 4 == 0 && (y % 100 != 0 || y % 400 == 0)
  }

  function DaysInMonth(y: int, m: int): (n: int)
    requires 1 <= m <= 12
    ensures 28 <= n <= 31
  {
    if m == 2 then (if IsLeapYear(y) then 29 else 28)
    else if m == 4 || m == 6 || m == 9 || m == 11 then 30
    else 31
  }

  predicate ValidDate(d: Date)
  {
    1 <= d.year && 1 <= d.month <= 12 && 1 <= d.day <= DaysInMonth(d.year, d.month)
  }

  /** A `datetime.date`: always a real calendar day. */
  type CalendarDate = d: Date | ValidDate(d) witness Date(1970, 1, 1)

  /** The `'%Y-%m-%d'` rendering of a date. */
  function IsoDate(d: CalendarDate): (s: string)
    ensures d.year < 10000 ==> |s| == 10 && s[4] == '-' && s[7] == '-'
  {
    DecimalStringFits(d.year, 4);
    DecimalStringFits(d.month, 2);
    DecimalStringFits(d.day, 2);
    ZeroPad(d.year, 4) + "-" + ZeroPad(d.month, 2) + "-" + ZeroPad(d.day, 2)
  }

  /** Reading the three digit groups back gives the date. */
  lemma IsoDateRoundTrip(d: CalendarDate)
    requires d.year < 10000
    ensures AllDigits(IsoDate(d)[..4]) && ParseDecimal(IsoDate(d)[..4]) == d.year
    ensures AllDigits(IsoDate(d)[5..7]) && ParseDecimal(IsoDate(d)[5..7]) == d.month
    ensures AllDigits(IsoDate(d)[8..]) && ParseDecimal(IsoDate(d)[8..]) == d.day
  {
    var s := IsoDate(d);
    assert s[..4] == ZeroPad(d.year, 4);
    assert s[5..7] == ZeroPad(d.month, 2);
    assert s[8..] == ZeroPad(d.day, 2);
    ParseZeroPad(d.year, 4);
    ParseZeroPad(d.month, 2);
    ParseZeroPad(d.day, 2);
  }

  /** Distinct dates render differently. */
  lemma IsoDateInjective(d1: CalendarDate, d2: CalendarDate)
    requires d1.year < 10000 && d2.year < 10000
    requires IsoDate(d1) == IsoDate(d2)
    ensures d1 == d2
  {
    IsoDateRoundTrip(d1);
    IsoDateRoundTrip(d2);
  }

  function DateOf(t: Timestamp): Date
  {
    Date(t.year, t.month, t.day)
  }

  predicate ValidTimestamp(t: Timestamp)
  {
    ValidDate(DateOf(t)) && 0 <= t.hour < 24 && 0 <= t.minute < 60 && 0 <= t.second < 60
  }

  /** A timestamp as `pd.to_datetime` produces it: always a real calendar instant. */
  type DateTime = t: Timestamp | ValidTimestamp(t) witness Timestamp(1970, 1, 1, 0, 0, 0)

  /** Chronological order of timestamps (strict). */
  predicate Before(a: Timestamp, b: Timestamp)
  {
    if a.year != b.year then a.year < b.year
    else if a.month != b.month then a.month < b.month
    else if a.day != b.day then a.day < b.day
    else if a.hour != b.hour then a.hour < b.hour
    else if a.minute != b.minute then a.minute < b.minute
    else a.second < b.second
  }

  lemma BeforeIsStrictTotalOrder(a: Timestamp, b: Timestamp, c: Timestamp)
    ensures !Before(a, a)
    ensures Before(a, b) ==> !Before(b, a)
    ensures Before(a, b) && Before(b, c) ==> Before(a, c)
    ensures a != b ==> Before(a, b) || Before(b, a)
  {
  }

  /** The `'%Y%m%d'` rendering of a timestamp's calendar date. */
  function YmdString(t: Timestamp): string
    requires ValidTimestamp(t)
  {
    ZeroPad(t.year, 4) + ZeroPad(t.month, 2) + ZeroPad(t.day, 2)
  }

  /** The `YYYYMMDD` number of a timestamp's calendar day: the value every
      `date_key` column holds. */
  function YmdKey(t: Timestamp): int
  {
    t.year * 10000 + t.month * 100 + t.day
  }

  /** `dt.strftime('%Y%m%d').astype(int)`: the integer the rendered digits
      denote is the day's `YYYYMMDD` number. */
  function DateKey(t: Timestamp): (key: int)
    requires ValidTimestamp(t)
    ensures key == YmdKey(t)
  {
    var y, m, d := ZeroPad(t.year, 4), ZeroPad(t.month, 2), ZeroPad(t.day, 2);
    DecimalStringFits(t.month, 2);
    DecimalStringFits(t.day, 2);
    assert |m| == 2 && |d| == 2;
    assert Pow10(2) == 100;
    ParseZeroPad(t.year, 4);
    ParseZeroPad(t.month, 2);
    ParseZeroPad(t.day, 2);
    ParseConcat(y, m);
    var ym := ParseDecimal(y + m);
    assert ym == t.year * 100 + t.month;
    ParseConcat(y + m, d);
    assert y + m + d == YmdString(t);
    assert ParseDecimal(YmdString(t)) == ym * 100 + t.day;
    ParseDecimal(YmdString(t))
  }

  /** The key `y·10000 + m·100 + d` determines the day when month and day
      are two-digit fields. */
  lemma KeyFieldsInjective(y1: int, m1: int, d1: int, y2: int, m2: int, d2: int)
    requires 0 <= m1 < 100 && 0 <= d1 < 100 && 0 <= m2 < 100 && 0 <= d2 < 100
    requires y1 * 10000 + m1 * 100 + d1 == y2 * 10000 + m2 * 100 + d2
    ensures y1 == y2 && m1 == m2 && d1 == d2
  {
    var key := y1 * 10000 + m1 * 100 + d1;
    HundredsSplit(y1 * 100 + m1, d1);
    HundredsSplit(y2 * 100 + m2, d2);
    assert key == (y1 * 100 + m1) * 100 + d1 == (y2 * 100 + m2) * 100 + d2;
    HundredsSplit(y1, m1);
    HundredsSplit(y2, m2);
  }

  /** Splitting off the last two decimal places. */
  lemma HundredsSplit(q: int, r: int)
    requires 0 <= r < 100
    ensures (q * 100 + r) / 100 == q && (q * 100 + r) % 100 == r
  {
  }

  /** Two timestamps share a date key exactly when they fall on the same day. */
  lemma DateKeyIdentifiesDay(a: Timestamp, b: Timestamp)
    requires ValidTimestamp(a) && ValidTimestamp(b)
    ensures DateKey(a) == DateKey(b) <==> DateOf(a) == DateOf(b)
  {
    if DateKey(a) == DateKey(b) {
      KeyFieldsInjective(a.year, a.month, a.day, b.year, b.month, b.day);
    }
  }

  /** Date keys are ordered like the days they encode. */
  lemma DateKeyMonotone(a: Timestamp, b: Timestamp)
    requires ValidTimestamp(a) && ValidTimestamp(b)
    requires Before(a, b)
    ensures DateKey(a) <= DateKey(b)
  {
  }

  /** `dt.quarter`. */
  function Quarter(t: Timestamp): (q: int)
    requires ValidTimestamp(t)
    ensures 1 <= q <= 4
    ensures 3 * q - 2 <= t.month <= 3 * q
  {
    (t.month - 1) / 3 + 1
  }

  /** Day number since 1970-01-01 in the proleptic Gregorian calendar, with
      years counted from March so that the leap day ends the year. */
  function DaysFromCivil(y: int, m: int, d: int): int
    requires 1 <= m <= 12
  {
    var y' := if m <= 2 then y - 1 else y;
    var era := y' / 400;
    var yoe := y' - era * 400;
    var mp := (m + 9) % 12;
    var doy := (153 * mp + 2) / 5 + d - 1;
    var doe := yoe * 365 + yoe / 4 - yoe / 100 + doy;
    era * 146097 + doe - 719468
  }

  /** `dt.dayofweek`: Monday is 0 and Sunday is 6 (1970-01-01 was a Thursday). */
  function DayOfWeek(t: Timestamp): (w: int)
    requires ValidTimestamp(t)
    ensures 0 <= w <= 6
  {
    (DaysFromCivil(t.year, t.month, t.day) + 3) % 7
  }

  /** The day after a valid date. */
  function NextDate(d: Date): (n: Date)
    requires ValidDate(d)
    ensures ValidDate(n)
  {
    if d.day < DaysInMonth(d.year, d.month) then Date(d.year, d.month, d.day + 1)
    else if d.month < 12 then Date(d.year, d.month + 1, 1)
    else Date(d.year + 1, 1, 1)
  }

  /** Day number of March 1st of year `y`. */
  function MarchFirst(y: int): int
  {
    var era := y / 400;
    var yoe := y - era * 400;
    era * 146097 + yoe * 365 + yoe / 4 - yoe / 100 - 719468
  }

  lemma StepOfQuotient4(k: int)
    requires k >= 0
    ensures (k + 1) / 4 - k / 4 == if (k + 1) % 4 == 0 then 1 else 0
  {
  }

  lemma StepOfQuotient100(k: int)
    requires k >= 0
    ensures (k + 1) / 100 - k / 100 == if (k + 1) % 100 == 0 then 1 else 0
  {
  }

  /** Shifting a year by whole 400-year eras keeps its residues modulo 4, 100 and 400. */
  lemma EraResidues(era: int, yoe: int)
    ensures (era * 400 + yoe) % 4 == yoe % 4
    ensures (era * 400 + yoe) % 100 == yoe % 100
    ensures (era * 400 + yoe) % 400 == yoe % 400
  {
    ShiftResidue(era * 100, 4, yoe);
    ShiftResidue(era * 4, 100, yoe);
    ShiftResidue(era, 400, yoe);
  }

  lemma ShiftResidue(q: int, k: int, r: int)
    requires k > 0
    ensures (q * k + r) % k == r % k
  {
    var z := q * k + r;
    assert z == (q + r / k) * k + r % k;
    DivModUnique(z, k, q + r / k, r % k);
  }

  /** Euclidean division has one quotient and remainder. */
  lemma DivModUnique(z: int, k: int, a: int, b: int)
    requires k > 0 && 0 <= b < k && z == a * k + b
    ensures z % k == b
  {
    var a' := z / k;
    assert (a - a') * k == z % k - b;
    SmallMultipleIsZero(a - a', k);
  }

  lemma SmallMultipleIsZero(x: int, k: int)
    requires k > 0 && -k < x * k < k
    ensures x == 0
  {
  }

  lemma LeapYearOfEra(era: int, yoe: int)
    requires 0 <= yoe < 400
    ensures IsLeapYear(era * 400 + yoe) <==> yoe % 4 == 0 && (yoe % 100 != 0 || yoe == 0)
  {
    EraResidues(era, yoe);
  }

  /** Day numbers of consecutive March firsts differ by the length of the
      year that ends with the intervening February. */
  lemma YearStartStep(y: int)
    ensures MarchFirst(y + 1) - MarchFirst(y) == if IsLeapYear(y + 1) then 366 else 365
  {
    var era := y / 400;
    var yoe := y - era * 400;
    assert 0 <= yoe < 400;
    if yoe < 399 {
      assert (y + 1) / 400 == era;
      StepOfQuotient4(yoe);
      StepOfQuotient100(yoe);
      LeapYearOfEra(era, yoe + 1);
    } else {
      assert (y + 1) / 400 == era + 1;
      LeapYearOfEra(era + 1, 0);
    }
  }

  /** Days from March 1st to the first of month `m` of the same March-based year. */
  function MonthOffset(m: int): int
    requires 1 <= m <= 12
  {
    (153 * ((m + 9) % 12) + 2) / 5
  }

  lemma DaysFromCivilSplit(y: int, m: int, d: int)
    requires 1 <= m <= 12
    ensures DaysFromCivil(y, m, d) == MarchFirst(if m <= 2 then y - 1 else y) + MonthOffset(m) + d - 1
  {
  }

  /** The offsets of the twelve months from March 1st. */
  lemma MonthOffsetValues()
    ensures MonthOffset(3) == 0 && MonthOffset(4) == 31 && MonthOffset(5) == 61
    ensures MonthOffset(6) == 92 && MonthOffset(7) == 122 && MonthOffset(8) == 153
    ensures MonthOffset(9) == 184 && MonthOffset(10) == 214 && MonthOffset(11) == 245
    ensures MonthOffset(12) == 275 && MonthOffset(1) == 306 && MonthOffset(2) == 337
  {
  }

  /** Each month but February ends where the next month's offset begins. */
  lemma MonthOffsetStep(y: int, m: int)
    requires 1 <= m < 12 && m != 2
    ensures MonthOffset(m + 1) == MonthOffset(m) + DaysInMonth(y, m)
  {
    MonthOffsetValues();
    if m == 1 {
      assert m + 1 == 2;
    } else if m <= 6 {
      assert m == 3 || m == 4 || m == 5 || m == 6;
    } else {
      assert m == 7 || m == 8 || m == 9 || m == 10 || m == 11;
    }
  }

  lemma SameMonthStep(y: int, m: int, d: int)
    requires 1 <= m <= 12
    ensures DaysFromCivil(y, m, d + 1) == DaysFromCivil(y, m, d) + 1
  {
    DaysFromCivilSplit(y, m, d);
    DaysFromCivilSplit(y, m, d + 1);
  }

  lemma MonthEndStep(y: int, m: int)
    requires 1 <= m < 12 && m != 2
    ensures DaysFromCivil(y, m + 1, 1) == DaysFromCivil(y, m, DaysInMonth(y, m)) + 1
  {
    DaysFromCivilSplit(y, m, DaysInMonth(y, m));
    DaysFromCivilSplit(y, m + 1, 1);
    MonthOffsetStep(y, m);
  }

  lemma FebruaryEndStep(y: int)
    ensures DaysFromCivil(y, 3, 1) == DaysFromCivil(y, 2, DaysInMonth(y, 2)) + 1
  {
    DaysFromCivilSplit(y, 2, DaysInMonth(y, 2));
    DaysFromCivilSplit(y, 3, 1);
    MonthOffsetValues();
    YearStartStep(y - 1);
  }

  lemma YearEndStep(y: int)
    ensures DaysFromCivil(y + 1, 1, 1) == DaysFromCivil(y, 12, 31) + 1
  {
    DaysFromCivilSplit(y, 12, 31);
    DaysFromCivilSplit(y + 1, 1, 1);
    MonthOffsetValues();
  }

  /** Consecutive dates have consecutive day numbers. */
  lemma NextDateIsNextDay(d: Date)
    requires ValidDate(d)
    ensures DaysFromCivil(NextDate(d).year, NextDate(d).month, NextDate(d).day)
         == DaysFromCivil(d.year, d.month, d.day) + 1
  {
    var n := NextDate(d);
    if d.day < DaysInMonth(d.year, d.month) {
      assert n == Date(d.year, d.month, d.day + 1);
      SameMonthStep(d.year, d.month, d.day);
    } else if d.month == 2 {
      assert n == Date(d.year, 3, 1);
      FebruaryEndStep(d.year);
    } else if d.month < 12 {
      assert n == Date(d.year, d.month + 1, 1);
      MonthEndStep(d.year, d.month);
    } else {
      assert n == Date(d.year + 1, 1, 1) && d.day == 31;
      YearEndStep(d.year);
    }
  }

  lemma ModSeven(n: int)
    ensures (n + 1) % 7 == (n % 7 + 1) % 7
  {
  }

  /** The weekday advances by one, modulo 7, from each day to the next. */
  lemma DayOfWeekAdvances(t: Timestamp, u: Timestamp)
    requires ValidTimestamp(t) && ValidTimestamp(u)
    requires DateOf(u) == NextDate(DateOf(t))
    ensures DayOfWeek(u) == (DayOfWeek(t) + 1) % 7
  {
    NextDateIsNextDay(DateOf(t));
    ModSeven(DaysFromCivil(t.year, t.month, t.day) + 3);
  }

  lemma EpochIsThursday()
    ensures DayOfWeek(Timestamp(1970, 1, 1, 0, 0, 0)) == 3
  {
  }

  /** Lexicographic `(month, day) < (month', day')`, as Python compares tuples. */
  predicate MonthDayBefore(a: Date, b: Date)
  {
    a.month < b.month || (a.month == b.month && a.day < b.day)
  }

  /** Chronological order of dates (non-strict). */
  predicate DateNotAfter(a: Date, b: Date)
  {
    a.year < b.year || (a.year == b.year && !MonthDayBefore(b, a))
  }

  /** `today.year - dob.year - ((today.month, today.day) < (dob.month, dob.day))`:
      the number of completed years. The `a`-th anniversary of the birth date
      has been reached and the next one has not, and nobody born on or before
      today has a negative age. */
  function Age(today: Date, dob: Date): (a: int)
    ensures DateNotAfter(Date(dob.year + a, dob.month, dob.day), today)
    ensures !DateNotAfter(Date(dob.year + a + 1, dob.month, dob.day), today)
    ensures DateNotAfter(dob, today) ==> a >= 0
  {
    today.year - dob.year - (if MonthDayBefore(today, dob) then 1 else 0)
  }
}
