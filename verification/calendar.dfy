/**
 * Calendar arithmetic of the vesting contract (src/investment/investment.rs): the
 * Gregorian leap rule, month advancement without day clamping, the conversion of a
 * block timestamp to a civil date, and validation and formatting of `YYYY-MM-DD` strings.
 */
module Calendar {
  import opened Wrappers
  import opened Text

  /** A civil date as the source passes it around: `(i32, u32, u32)`. */
  datatype Date = Date(year: int, month: int, day: int)

  const NANOS_PER_SECOND: nat := 1_000_000_000
  const SECONDS_PER_DAY: nat := 24 * 60 * 60

  /** `is_leap_year`. Rust's `%` truncates, but a remainder tested against zero does not depend on the rounding. */
  predicate IsLeapYear(year: int): (leap: bool)
    ensures leap ==> year % 4 == 0
    ensures 2000 <= year <= 2099 ==> (leap <==> year % 4 == 0)
  {
    (year % 4 == 0 && year % 100 != 0) || year % 400 == 0
  }

  /** The `months_days` table of `get_current_date`, already patched for leap years (index 0 is unused). */
  function MonthTable(year: int): (t: seq<nat>)
    ensures |t| == 13
  {
    [0, 31, if IsLeapYear(year) then 29 else 28, 31, 30, 31, 30, 31, 31, 30, 31, 30, 31]
  }

  function MonthLength(year: int, month: int): (n: nat)
    requires 1 <= month <= 12
    ensures 28 <= n <= 31
  {
    MonthTable(year)[month]
  }

  function YearLength(year: int): nat
  {
    if IsLeapYear(year) then 366 else 365
  }

  /** The calendar rule `is_valid_date_format` enforces once the string has been split and parsed. */
  predicate ValidDate(d: Date)
  {
    2000 <= d.year <= 9999 && 1 <= d.month <= 12 && 1 <= d.day <= MonthLength(d.year, d.month)
  }

  // ------------------------------------------------------------ day numbers

  /** Days from 1970-01-01 to the first of January of `year`. */
  function DaysBeforeYear(year: int): nat
    requires year >= 1970
    decreases year - 1970
  {
    if year == 1970 then 0 else DaysBeforeYear(year - 1) + YearLength(year - 1)
  }

  /** Days from the first of January of `year` to the first day of `month` (13 stands for the next January). */
  function DaysBeforeMonth(year: int, month: int): nat
    requires 1 <= month <= 13
  {
    if month == 1 then 0 else DaysBeforeMonth(year, month - 1) + MonthLength(year, month - 1)
  }

  /** The number of days from 1970-01-01 to `d` in the proleptic Gregorian calendar. */
  function DayNumber(d: Date): int
    requires d.year >= 1970 && 1 <= d.month <= 12
  {
    DaysBeforeYear(d.year) + DaysBeforeMonth(d.year, d.month) + d.day - 1
  }

  /** `d` is a real calendar date from 1970 on, and it is day `n` counted from 1970-01-01. */
  predicate IsDateOfDay(d: Date, n: nat)
  {
    && d.year >= 1970 && 1 <= d.month <= 12 && 1 <= d.day <= MonthLength(d.year, d.month)
    && DayNumber(d) == n
  }

  /** The twelve month lengths add up to the year length. */
  lemma MonthsFillYear(year: int)
    ensures DaysBeforeMonth(year, 13) == YearLength(year)
  {
    var t := MonthTable(year);
    assert DaysBeforeMonth(year, 2) == 31;
    assert DaysBeforeMonth(year, 3) == 31 + t[2];
    assert DaysBeforeMonth(year, 5) == 92 + t[2];
    assert DaysBeforeMonth(year, 7) == 153 + t[2];
    assert DaysBeforeMonth(year, 9) == 215 + t[2];
    assert DaysBeforeMonth(year, 11) == 276 + t[2];
    assert DaysBeforeMonth(year, 13) == 337 + t[2];
  }

  lemma {:induction false} DaysBeforeMonthGrows(year: int, a: int, b: int)
    requires 1 <= a < b <= 13
    ensures DaysBeforeMonth(year, a) + MonthLength(year, a) <= DaysBeforeMonth(year, b)
  {
    if b > a + 1 {
      DaysBeforeMonthGrows(year, a, b - 1);
    }
  }

  lemma {:induction false} DaysBeforeYearGrows(a: int, b: int)
    requires 1970 <= a < b
    ensures DaysBeforeYear(a) + YearLength(a) <= DaysBeforeYear(b)
    decreases b - a
  {
    if b > a + 1 {
      DaysBeforeYearGrows(a, b - 1);
    }
  }

  /** A real date falls inside its own year. */
  lemma DayOfYearBound(d: Date)
    requires 1 <= d.month <= 12 && 1 <= d.day <= MonthLength(d.year, d.month)
    ensures DaysBeforeMonth(d.year, d.month) + d.day - 1 < YearLength(d.year)
  {
    MonthsFillYear(d.year);
    if d.month < 12 {
      DaysBeforeMonthGrows(d.year, d.month, 13);
    }
  }

  /** Distinct real dates have distinct day numbers: a day number names one date only. */
  lemma DateOfDayUnique(a: Date, b: Date, n: nat)
    requires IsDateOfDay(a, n) && IsDateOfDay(b, n)
    ensures a == b
  {
    DayOfYearBound(a);
    DayOfYearBound(b);
    if a.year < b.year {
      DaysBeforeYearGrows(a.year, b.year);
    } else if b.year < a.year {
      DaysBeforeYearGrows(b.year, a.year);
    } else if a.month < b.month {
      DaysBeforeMonthGrows(a.year, a.month, b.month);
    } else if b.month < a.month {
      DaysBeforeMonthGrows(a.year, b.month, a.month);
    }
  }

  /**
   * `get_current_date` with the block timestamp (nanoseconds) passed in: whole years are
   * peeled off from 1970 on, then whole months using the month table. The result is the
   * calendar date of day `timestamp / 86400` counted from 1970-01-01.
   */
  method CurrentDate(blockTimestamp: U64) returns (date: Date)
    ensures IsDateOfDay(date, blockTimestamp / NANOS_PER_SECOND / SECONDS_PER_DAY)
  {
    var timestamp := blockTimestamp / NANOS_PER_SECOND;
    var secondsInDay := 24 * 60 * 60;
    var daysSinceEpoch: nat := timestamp / secondsInDay;
    ghost var total := daysSinceEpoch;

    var years := 1970;
    while daysSinceEpoch >= 365
      invariant years >= 1970
      invariant DaysBeforeYear(years) + daysSinceEpoch == total
      decreases daysSinceEpoch
    {
      if IsLeapYear(years) {
        if daysSinceEpoch >= 366 {
          daysSinceEpoch := daysSinceEpoch - 366;
          years := years + 1;
        } else {
          break;
        }
      } else {
        daysSinceEpoch := daysSinceEpoch - 365;
        years := years + 1;
      }
    }
    ghost var dayOfYear := daysSinceEpoch;
    assert dayOfYear < YearLength(years);

    var monthsDays := new nat[13] [0, 31, 28, 31, 30, 31, 30, 31, 31, 30, 31, 30, 31];
    if IsLeapYear(years) {
      monthsDays[2] := 29;
    }
    MonthsFillYear(years);

    var months := 1;
    for i := 1 to 13
      invariant monthsDays[..] == MonthTable(years)
      invariant DaysBeforeMonth(years, i) + daysSinceEpoch == dayOfYear
    {
      if daysSinceEpoch < monthsDays[i] {
        months := i;
        break;
      } else {
        daysSinceEpoch := daysSinceEpoch - monthsDays[i];
      }
    }

    var days := daysSinceEpoch + 1;
    date := Date(years, months, days);
  }

  /** Every group of four years 1970..2097 holds exactly one leap day (2000 is a leap year by the 400 rule). */
  lemma FourYearBlock(year: int)
    requires 1970 <= year <= 2094 && year % 4 == 2
    ensures DaysBeforeYear(year + 4) == DaysBeforeYear(year) + 1461
  {
    assert !IsLeapYear(year) && !IsLeapYear(year + 1) && !IsLeapYear(year + 3);
    assert IsLeapYear(year + 2);
    assert DaysBeforeYear(year + 2) == DaysBeforeYear(year) + 730;
    assert DaysBeforeYear(year + 3) == DaysBeforeYear(year) + 1096;
  }

  lemma {:induction false} DaysBeforeYearUpTo2098(n: nat)
    requires 1970 + 4 * n <= 2098
    ensures DaysBeforeYear(1970 + 4 * n) == 1461 * n
  {
    if n > 0 {
      var y := 1970 + 4 * (n - 1);
      DaysBeforeYearUpTo2098(n - 1);
      assert y % 4 == 2 && y + 4 == 1970 + 4 * n;
      FourYearBlock(y);
      assert 1461 * (n - 1) + 1461 == 1461 * n;
    }
  }

  /** Block timestamp 1693274924 s (in nanoseconds) is day 19598, the date 2023-08-29 (UTC). */
  lemma TimestampExample()
    ensures IsDateOfDay(Date(2023, 8, 29), 1693274924_000000000 / NANOS_PER_SECOND / SECONDS_PER_DAY)
  {
    DaysBeforeYearUpTo2098(13);
    assert DaysBeforeYear(2023) == 19358;
    assert !IsLeapYear(2023);
    assert DaysBeforeMonth(2023, 8) == 212;
  }

  // ------------------------------------------------------ month arithmetic

  /** Months elapsed since January of year 0: the scale on which `add_month` works. */
  function MonthIndex(d: Date): int
  {
    d.year * 12 + d.month - 1
  }

  /**
   * `add_month`: moves the month on by `cycle` and carries the year; the day of the
   * month is passed through unchanged, even when the target month is shorter.
   */
  function AddMonth(date: Date, cycle: U8): (next: Date)
    requires 0 <= date.month && 1 <= date.month + cycle <= I32_MAX + 1
    ensures 1 <= next.month <= 12 && next.day == date.day
    ensures MonthIndex(next) == MonthIndex(date) + cycle
  {
    var nextMonth := date.month + cycle - 1;
    Date(date.year + nextMonth / 12, nextMonth % 12 + 1, date.day)
  }

  /** A date with a month in 1..12 is fixed by its month index and its day. */
  lemma SameMonthIndex(a: Date, b: Date)
    requires 1 <= a.month <= 12 && 1 <= b.month <= 12
    requires MonthIndex(a) == MonthIndex(b) && a.day == b.day
    ensures a == b
  {
  }

  /** December rolls over into January of the next year, twelve months keep the month, and the day is not clamped: January 31 plus one month is February 31. */
  lemma AddMonthExamples()
    ensures AddMonth(Date(2023, 12, 15), 1) == Date(2024, 1, 15)
    ensures AddMonth(Date(2023, 6, 10), 12) == Date(2024, 6, 10)
    ensures AddMonth(Date(2023, 1, 31), 1) == Date(2023, 2, 31) && !ValidDate(Date(2023, 2, 31))
  {
  }

  /** Twelve months on from a real month is the same month of the next year, same day. */
  lemma AddTwelveMonths(d: Date)
    requires 1 <= d.month <= 12
    ensures AddMonth(d, 12) == Date(d.year + 1, d.month, d.day)
  {
    SameMonthIndex(AddMonth(d, 12), Date(d.year + 1, d.month, d.day));
  }

  /**
   * Moving a real date whose day exists in every month (1..28) by any cycle gives a
   * date the validator accepts once formatted, as long as the year stays in range.
   */
  lemma AddMonthEarlyDayValid(d: Date, cycle: U8)
    requires ValidDate(d) && d.day <= 28
    requires AddMonth(d, cycle).year <= 9999
    ensures IsValidDateFormat(FormatDate(AddMonth(d, cycle)))
  {
    FormattedDateValidity(AddMonth(d, cycle));
  }

  /** `y*10000 + m*100 + d`, the key `distribute_token` compares dates by. */
  function DateKey(d: Date): (k: int)
    ensures 0 <= d.year <= 400_000 && 0 <= d.month <= 12 && 0 <= d.day <= 31 ==> 0 <= k < U32_LIMIT
  {
    d.year * 10000 + d.month * 100 + d.day
  }

  predicate ChronologicallyNotAfter(a: Date, b: Date)
  {
    a.year < b.year || (a.year == b.year && (a.month < b.month || (a.month == b.month && a.day <= b.day)))
  }

  /** For months in 1..12 and days below 100 the key orders dates chronologically. */
  lemma DateKeyOrder(a: Date, b: Date)
    requires 1 <= a.month <= 12 && 1 <= b.month <= 12
    requires 0 <= a.day < 100 && 0 <= b.day < 100
    ensures DateKey(a) <= DateKey(b) <==> ChronologicallyNotAfter(a, b)
  {
  }

  // ------------------------------------------------- text form of a date

  /** `format!("{:04}-{:02}-{:02}", y, m, d)` for non-negative fields. */
  function FormatDate(d: Date): (s: string)
    requires d.year >= 0 && d.month >= 0 && d.day >= 0
    ensures |s| >= 10
  {
    ZeroPad(Decimal(d.year), 4) + "-" + ZeroPad(Decimal(d.month), 2) + "-" + ZeroPad(Decimal(d.day), 2)
  }

  /**
   * How `distribute_token` reads a stored date: split on '-', parse piece 0 as `i32`
   * and pieces 1 and 2 as `u32`, unwrapping each. None stands for the panic of a
   * missing piece or a failed unwrap; pieces after the third are ignored.
   */
  function ParseDate(s: string): (r: Option<Date>)
    ensures r.Some? ==> I32_MIN <= r.value.year <= I32_MAX
    ensures r.Some? ==> 0 <= r.value.month < U32_LIMIT && 0 <= r.value.day < U32_LIMIT
    ensures |Split(s, '-')| < 3 ==> r.None?
  {
    var parts := Split(s, '-');
    if |parts| < 3 then None
    else match (ParseI32(parts[0]), ParseUnsigned(parts[1], U32_LIMIT), ParseUnsigned(parts[2], U32_LIMIT))
      case (Some(y), Some(m), Some(d)) => Some(Date(y, m, d))
      case _ => None
  }

  /** How `is_valid_date_format` reads a date: exactly three pieces, each parsed as `i32`. */
  function ParseYmd(s: string): Option<Date>
  {
    var parts := Split(s, '-');
    if |parts| != 3 then None
    else match (ParseI32(parts[0]), ParseI32(parts[1]), ParseI32(parts[2]))
      case (Some(y), Some(m), Some(d)) => Some(Date(y, m, d))
      case _ => None
  }

  /**
   * `is_valid_date_format`: a ten-character string whose three '-'-separated pieces
   * parse as integers forming a real date with a year in 2000..9999.
   */
  function IsValidDateFormat(date: string): (ok: bool)
    ensures ok <==> |date| == 10 && ParseYmd(date).Some? && ValidDate(ParseYmd(date).value)
  {
    if |date| != 10 then false
    else
      var parts := Split(date, '-');
      if |parts| != 3 then false
      else
        var year, month, day := ParseI32(parts[0]), ParseI32(parts[1]), ParseI32(parts[2]);
        if year.None? || month.None? || day.None? then false
        else
          var y, m, d := year.value, month.value, day.value;
          if y < 2000 || y > 9999 || m < 1 || m > 12 || d < 1 then false
          else DayFitsMonth(y, m, d)
  }

  /** The validator's per-month day limit, which is the month length of the calendar. */
  predicate DayFitsMonth(y: int, m: int, d: int): (ok: bool)
    ensures ok <==> 1 <= m <= 12 && d <= MonthLength(y, m)
  {
    match m
    case 1 | 3 | 5 | 7 | 8 | 10 | 12 => d <= 31
    case 4 | 6 | 9 | 11 => d <= 30
    case 2 => if IsLeapYear(y) then d <= 29 else d <= 28
    case _ => false
  }

  lemma DigitsHaveNoDash(s: string)
    requires AllDigits(s)
    ensures '-' !in s
  {
  }

  /** A formatted date splits back into its three padded numbers. */
  lemma SplitFormattedDate(d: Date)
    requires d.year >= 0 && d.month >= 0 && d.day >= 0
    ensures Split(FormatDate(d), '-')
         == [ZeroPad(Decimal(d.year), 4), ZeroPad(Decimal(d.month), 2), ZeroPad(Decimal(d.day), 2)]
  {
    var y, m, dd := ZeroPad(Decimal(d.year), 4), ZeroPad(Decimal(d.month), 2), ZeroPad(Decimal(d.day), 2);
    PaddedRoundTrip(d.year, 4, d.year + 1);
    PaddedRoundTrip(d.month, 2, d.month + 1);
    PaddedRoundTrip(d.day, 2, d.day + 1);
    DigitsHaveNoDash(y);
    DigitsHaveNoDash(m);
    DigitsHaveNoDash(dd);
    SplitThree(y, m, dd, '-');
  }

  /** Formatting a date and reading it back, either way the source reads dates, gives the same date. */
  lemma FormatDateRoundTrip(d: Date)
    requires 0 <= d.year <= I32_MAX && 0 <= d.month <= I32_MAX && 0 <= d.day <= I32_MAX
    ensures ParseDate(FormatDate(d)) == Some(d)
    ensures ParseYmd(FormatDate(d)) == Some(d)
  {
    SplitFormattedDate(d);
    PaddedRoundTrip(d.year, 4, I32_MAX + 1);
    PaddedRoundTrip(d.month, 2, I32_MAX + 1);
    PaddedRoundTrip(d.day, 2, I32_MAX + 1);
    PaddedRoundTrip(d.month, 2, U32_LIMIT);
    PaddedRoundTrip(d.day, 2, U32_LIMIT);
  }

  /** Four-digit years with two-digit months and days format to exactly ten characters. */
  lemma FormatDateLength(d: Date)
    requires 0 <= d.year <= 9999 && 0 <= d.month <= 99 && 0 <= d.day <= 99
    ensures |FormatDate(d)| == 10
  {
    DecimalLength(d.year, 4);
    DecimalLength(d.month, 2);
    DecimalLength(d.day, 2);
  }

  /** Every `YYYY-MM-DD` rendering is accepted exactly when it names a real date in 2000..9999. */
  lemma FormattedDateValidity(d: Date)
    requires 0 <= d.year <= 9999 && 0 <= d.month <= 99 && 0 <= d.day <= 99
    ensures IsValidDateFormat(FormatDate(d)) <==> ValidDate(d)
  {
    FormatDateLength(d);
    FormatDateRoundTrip(d);
  }

  /** A string the validator accepts is read by `distribute_token` as the same real date. */
  lemma ValidFormatParses(s: string)
    requires IsValidDateFormat(s)
    ensures ParseDate(s) == ParseYmd(s) && ValidDate(ParseDate(s).value)
  {
  }

  /** Reads a `YYYY-MM-DD`-shaped string through the validator, piece by piece. */
  lemma ValidatorOnPieces(s: string, a: string, b: string, c: string)
    requires s == a + "-" + b + "-" + c
    requires |a| + |b| + |c| == 8
    requires '-' !in a && '-' !in b && '-' !in c
    requires ParseI32(a).Some? && ParseI32(b).Some? && ParseI32(c).Some?
    ensures IsValidDateFormat(s)
        <==> ValidDate(Date(ParseI32(a).value, ParseI32(b).value, ParseI32(c).value))
  {
    SplitThree(a, b, c, '-');
  }

  lemma ParseTwoDigits(s: string)
    requires |s| == 2 && AllDigits(s)
    ensures ParseI32(s) == Some(DigitsValue(s))
    ensures DigitsValue(s) == DigitValue(s[0]) * 10 + DigitValue(s[1])
  {
    assert s[..1][0] == s[0];
    assert DigitsValue(s[..1]) == DigitValue(s[0]);
    assert ParseUnsigned(s, I32_MAX + 1) == Some(DigitsValue(s));
  }

  lemma ParseFourDigits(s: string)
    requires |s| == 4 && AllDigits(s)
    ensures ParseI32(s) == Some(DigitsValue(s))
    ensures DigitsValue(s) == ((DigitValue(s[0]) * 10 + DigitValue(s[1])) * 10 + DigitValue(s[2])) * 10 + DigitValue(s[3])
  {
    assert s[..3][..2][..1][0] == s[0] && s[..3][..2][1] == s[1] && s[..3][2] == s[2];
    assert DigitsValue(s[..3][..2][..1]) == DigitValue(s[0]);
    assert DigitsValue(s[..3][..2]) == DigitValue(s[0]) * 10 + DigitValue(s[1]);
    assert s[..3][..2] == s[..2] && s[..3][..2][..1] == s[..1];
    assert ParseUnsigned(s, I32_MAX + 1) == Some(DigitsValue(s));
  }

  /** Rejects a four-digit year, two-digit month and two-digit day that do not form a real date. */
  lemma RejectedPieces(s: string, a: string, b: string, c: string)
    requires s == a + "-" + b + "-" + c && |a| == 4 && |b| == 2 && |c| == 2
    requires AllDigits(a) && AllDigits(b) && AllDigits(c)
    requires !ValidDate(Date(DigitsValue(a), DigitsValue(b), DigitsValue(c)))
    ensures !IsValidDateFormat(s)
  {
    ParseFourDigits(a);
    ParseTwoDigits(b);
    ParseTwoDigits(c);
    ValidatorOnPieces(s, a, b, c);
  }

  /** February 30th, months 00 and 13, and February 29th of a common year are rejected. */
  lemma RejectedExamples(s: string)
    requires s == "2023-02-30" || s == "2023-00-10" || s == "2023-13-01" || s == "2023-02-29"
    ensures !IsValidDateFormat(s)
  {
    ParseFourDigits("2023");
    if s == "2023-02-30" {
      RejectedPieces(s, "2023", "02", "30");
    } else if s == "2023-00-10" {
      RejectedPieces(s, "2023", "00", "10");
    } else if s == "2023-13-01" {
      RejectedPieces(s, "2023", "13", "01");
    } else {
      RejectedPieces(s, "2023", "02", "29");
    }
  }

  /** A leap day in a leap year is accepted. */
  lemma AcceptedLeapDay(s: string)
    requires s == "2024-02-29"
    ensures IsValidDateFormat(s)
  {
    ParseFourDigits("2024");
    ParseTwoDigits("02");
    ParseTwoDigits("29");
    assert ParseI32("2024") == Some(2024) && ParseI32("02") == Some(2) && ParseI32("29") == Some(29);
    assert ValidDate(Date(2024, 2, 29)) by {
      assert IsLeapYear(2024);
    }
    ValidatorOnPieces(s, "2024", "02", "29");
  }

  /** A plain first-of-month date is accepted. */
  lemma AcceptedNewYear(s: string)
    requires s == "2023-01-01"
    ensures IsValidDateFormat(s)
  {
    ParseFourDigits("2023");
    ParseTwoDigits("01");
    assert ParseI32("2023") == Some(2023) && ParseI32("01") == Some(1);
    ValidatorOnPieces(s, "2023", "01", "01");
  }

  /** The validator checks length and values, not the digit layout: a signed year with a one-digit month is accepted as 2023-01-01. */
  lemma LenientSignAccepted(s: string)
    requires s == "+2023-1-01"
    ensures IsValidDateFormat(s) && ParseYmd(s) == Some(Date(2023, 1, 1))
  {
    ParseFourDigits("2023");
    ParseTwoDigits("01");
    assert ParseI32("+2023") == Some(2023) by {
      assert "+2023"[1..] == "2023";
    }
    assert ParseI32("1") == Some(1);
    ValidatorOnPieces(s, "+2023", "1", "01");
    SplitThree("+2023", "1", "01", '-');
  }

  /** Likewise a one-digit month with a three-digit day is accepted as 2023-01-01. */
  lemma LenientPaddingAccepted(s: string)
    requires s == "2023-1-001"
    ensures IsValidDateFormat(s) && ParseYmd(s) == Some(Date(2023, 1, 1))
  {
    ParseFourDigits("2023");
    assert ParseI32("1") == Some(1);
    assert ParseI32("001") == Some(1) by {
      assert "001"[..2] == "00";
      ParseTwoDigits("00");
    }
    ValidatorOnPieces(s, "2023", "1", "001");
    SplitThree("2023", "1", "001", '-');
  }
}
