/** The epoch-day calendar of my_datetime (task.py:79-120): the Gregorian
    leap rule, year and month lengths, the day number of a date counted from
    1970-01-01, the date a day number names, and the `MM-DD-YYYY` rendering.
    The conversion itself is the imperative method MyDatetime, proved to
    return the rendering of the unique date whose day number is the number
    of whole days in its input. */
module EpochDate {
  import opened Numerals

  const SecondsPerDay := 86400

  /** my_datetime_helper_function (task.py:112-120), tested in the source's
      order; the contract states the usual one-line Gregorian rule. */
  function IsLeap(year: int): (r: bool)
    ensures r <==> year % 4 == 0 && (year % 100 != 0 || year % 400 == 0)
  {
    if year % 400 == 0 then true
    else if year % 100 == 0 then false
    else if year % 4 == 0 then true
    else false
  }

  /** `366 if is_leap else 365` (task.py:91). */
  function YearLength(year: int): (n: int)
    ensures n == 365 || n == 366
    ensures n == 366 <==> IsLeap(year)
  {
    if IsLeap(year) then 366 else 365
  }

  /** The month table of task.py:86 before February is patched. */
  const CommonMonthLengths: seq<int> := [31, 28, 31, 30, 31, 30, 31, 31, 30, 31, 30, 31]

  /** The table once task.py:98 has patched February for `year`. */
  function MonthTable(year: int): (t: seq<int>)
    ensures |t| == 12
  {
    CommonMonthLengths[1 := if IsLeap(year) then 29 else 28]
  }

  /** The length of month m (1-based) in `year`. */
  function MonthLength(year: int, m: int): (n: int)
    requires 1 <= m <= 12
    ensures 28 <= n <= 31
    ensures n == 29 <==> m == 2 && IsLeap(year)
  {
    MonthTable(year)[m - 1]
  }

  /** Days from 1970-01-01 to January 1st of `year`. */
  function DaysBeforeYear(year: int): nat
    requires year >= 1970
    decreases year - 1970
  {
    if year == 1970 then 0 else DaysBeforeYear(year - 1) + YearLength(year - 1)
  }

  /** Days from January 1st of `year` to the first of month m; m == 13 is
      the end of the year. */
  function DaysBeforeMonth(year: int, m: int): nat
    requires 1 <= m <= 13
  {
    if m == 1 then 0 else DaysBeforeMonth(year, m - 1) + MonthLength(year, m - 1)
  }

  /** The days before December: the eleven months January to November. */
  lemma DaysBeforeDecember(year: int)
    ensures DaysBeforeMonth(year, 12) == 306 + MonthLength(year, 2)
  {
    var feb := MonthLength(year, 2);
    assert DaysBeforeMonth(year, 2) == 31;
    assert DaysBeforeMonth(year, 3) == 31 + feb;
    assert DaysBeforeMonth(year, 4) == 62 + feb;
    assert DaysBeforeMonth(year, 5) == 92 + feb;
    assert DaysBeforeMonth(year, 6) == 123 + feb;
    assert DaysBeforeMonth(year, 7) == 153 + feb;
    assert DaysBeforeMonth(year, 8) == 184 + feb;
    assert DaysBeforeMonth(year, 9) == 215 + feb;
    assert DaysBeforeMonth(year, 10) == 245 + feb;
    assert DaysBeforeMonth(year, 11) == 276 + feb;
  }

  /** The twelve month lengths of the patched table add up to the year
      length task.py:91 uses. */
  lemma MonthsFillYear(year: int)
    ensures DaysBeforeMonth(year, 13) == YearLength(year)
  {
    DaysBeforeDecember(year);
  }

  /** Whole months before m2 cover month m1 when m1 < m2. */
  lemma {:induction false} MonthsBefore(year: int, m1: int, m2: int)
    requires 1 <= m1 < m2 <= 13
    ensures DaysBeforeMonth(year, m1) + MonthLength(year, m1) <= DaysBeforeMonth(year, m2)
    decreases m2
  {
    if m1 + 1 < m2 {
      MonthsBefore(year, m1, m2 - 1);
    }
  }

  /** Whole years before y2 cover year y1 when y1 < y2. */
  lemma {:induction false} YearsBefore(y1: int, y2: int)
    requires 1970 <= y1 < y2
    ensures DaysBeforeYear(y1) + YearLength(y1) <= DaysBeforeYear(y2)
    decreases y2
  {
    if y1 + 1 < y2 {
      YearsBefore(y1, y2 - 1);
    }
  }

  datatype Date = Date(year: int, month: int, day: int)

  /** A Gregorian date on or after the epoch. */
  predicate ValidDate(d: Date) {
    d.year >= 1970 && 1 <= d.month <= 12 && 1 <= d.day <= MonthLength(d.year, d.month)
  }

  /** Days from January 1st of d's year to d. */
  function DayOfYear(d: Date): int
    requires ValidDate(d)
  {
    DaysBeforeMonth(d.year, d.month) + d.day - 1
  }

  /** The number of days from 1970-01-01 to d. */
  function DayNumber(d: Date): nat
    requires ValidDate(d)
  {
    DaysBeforeYear(d.year) + DayOfYear(d)
  }

  /** A valid date falls inside its year. */
  lemma DayOfYearBound(d: Date)
    requires ValidDate(d)
    ensures 0 <= DayOfYear(d) < YearLength(d.year)
  {
    MonthsFillYear(d.year);
    MonthsBefore(d.year, d.month, 13);
  }

  /** The date `days` days after January 1st of `year`, peeling off whole
      months as task.py:100-105 does. */
  function MonthFrom(year: int, month: int, days: nat): Date
    requires year >= 1970 && 1 <= month <= 12
    requires DaysBeforeMonth(year, month) + days < YearLength(year)
    decreases 12 - month
  {
    MonthsFillYear(year);
    if days >= MonthLength(year, month) then
      MonthFrom(year, month + 1, days - MonthLength(year, month))
    else
      Date(year, month, days + 1)
  }

  /** Peeling months yields a valid date of that year, no earlier than the
      month started from, and exactly `days` days after that month began. */
  lemma {:induction false} MonthFromSpec(year: int, month: int, days: nat)
    requires year >= 1970 && 1 <= month <= 12
    requires DaysBeforeMonth(year, month) + days < YearLength(year)
    ensures var d := MonthFrom(year, month, days);
      ValidDate(d) && d.year == year && month <= d.month
      && DayOfYear(d) == DaysBeforeMonth(year, month) + days
    decreases 12 - month
  {
    MonthsFillYear(year);
    if days >= MonthLength(year, month) {
      MonthFromSpec(year, month + 1, days - MonthLength(year, month));
    }
  }

  /** The date `days` days after January 1st of `year`, peeling off whole
      years as task.py:89-96 does. */
  function YearFrom(year: int, days: nat): Date
    requires year >= 1970
    decreases days
  {
    if days >= YearLength(year) then YearFrom(year + 1, days - YearLength(year))
    else MonthFrom(year, 1, days)
  }

  /** Peeling years yields a valid date no earlier than `year`, exactly
      `days` days after January 1st of `year`. */
  lemma {:induction false} YearFromSpec(year: int, days: nat)
    requires year >= 1970
    ensures var d := YearFrom(year, days);
      ValidDate(d) && d.year >= year && DayNumber(d) == DaysBeforeYear(year) + days
    decreases days
  {
    if days >= YearLength(year) {
      var rest := days - YearLength(year);
      YearFromSpec(year + 1, rest);
      PeelYear(YearFrom(year + 1, rest), year, days);
    } else {
      MonthFromSpec(year, 1, days);
    }
  }

  /** A date `rest` days into the following year is `days` days into this one. */
  lemma PeelYear(d: Date, year: int, days: nat)
    requires year >= 1970 && days >= YearLength(year)
    requires ValidDate(d) && d.year > year
    requires DayNumber(d) == DaysBeforeYear(year + 1) + (days - YearLength(year))
    ensures DayNumber(d) == DaysBeforeYear(year) + days
  {
  }

  /** The date whose day number is `days`. */
  function CivilFromDays(days: nat): (d: Date)
    ensures ValidDate(d) && DayNumber(d) == days
  {
    YearFromSpec(1970, days);
    YearFrom(1970, days)
  }

  /** Distinct valid dates have distinct day numbers. */
  lemma DayNumberInjective(d1: Date, d2: Date)
    requires ValidDate(d1) && ValidDate(d2) && DayNumber(d1) == DayNumber(d2)
    ensures d1 == d2
  {
    DayOfYearBound(d1);
    DayOfYearBound(d2);
    if d1.year < d2.year {
      YearsBefore(d1.year, d2.year);
    } else if d2.year < d1.year {
      YearsBefore(d2.year, d1.year);
    } else if d1.month < d2.month {
      MonthsBefore(d1.year, d1.month, d2.month);
    } else if d2.month < d1.month {
      MonthsBefore(d2.year, d2.month, d1.month);
    }
  }

  /** Every valid date is the date of its own day number. */
  lemma CivilFromDaysInverse(d: Date)
    requires ValidDate(d)
    ensures CivilFromDays(DayNumber(d)) == d
  {
    DayNumberInjective(CivilFromDays(DayNumber(d)), d);
  }

  /** A date of February 29th names a leap year, and every leap year's
      February 29th is reached. */
  lemma LeapDay(year: int)
    requires year >= 1970
    ensures ValidDate(Date(year, 2, 29)) <==> IsLeap(year)
    ensures IsLeap(year) ==> CivilFromDays(DayNumber(Date(year, 2, 29))) == Date(year, 2, 29)
  {
    if IsLeap(year) {
      CivilFromDaysInverse(Date(year, 2, 29));
    }
  }

  // ---------------------------------------------------------------------------
  // Counting leap years in closed form
  // ---------------------------------------------------------------------------

  /** The number of leap years among 1..y (for y >= 0). */
  function LeapsThrough(y: int): int {
    y / 4 - y / 100 + y / 400
  }

  /** Stepping from y - 1 to y passes one more multiple of 4, 100 or 400
      exactly when y is one. */
  lemma DivSteps(y: int)
    ensures y / 4 - (y - 1) / 4 == if y % 4 == 0 then 1 else 0
    ensures y / 100 - (y - 1) / 100 == if y % 100 == 0 then 1 else 0
    ensures y / 400 - (y - 1) / 400 == if y % 400 == 0 then 1 else 0
  {
  }

  /** A multiple of 400 is a multiple of 100 ... */
  lemma Multiple400(y: int)
    requires y % 400 == 0
    ensures y % 100 == 0
  {
    var q := y / 400;
    assert y == 100 * (4 * q);
  }

  /** ... and a multiple of 100 is a multiple of 4. */
  lemma Multiple100(y: int)
    requires y % 100 == 0
    ensures y % 4 == 0
  {
    var q := y / 100;
    assert y == 4 * (25 * q);
  }

  /** Each year adds one to the count exactly when it is a leap year. */
  lemma LeapsStep(y: int)
    ensures LeapsThrough(y) - LeapsThrough(y - 1) == if IsLeap(y) then 1 else 0
  {
    DivSteps(y);
    if y % 400 == 0 {
      Multiple400(y);
    }
    if y % 100 == 0 {
      Multiple100(y);
    }
  }

  /** Days before a year, in closed form: 365 a year plus one per leap year
      since 1970. */
  lemma {:induction false} DaysBeforeYearClosed(year: int)
    requires year >= 1970
    ensures DaysBeforeYear(year) == 365 * (year - 1970) + LeapsThrough(year - 1) - LeapsThrough(1969)
    decreases year
  {
    if year > 1970 {
      DaysBeforeYearClosed(year - 1);
      LeapsStep(year - 1);
      ClosedStep(DaysBeforeYear(year - 1), YearLength(year - 1), year - 1,
                 LeapsThrough(year - 2), LeapsThrough(year - 1), LeapsThrough(1969));
    }
  }

  lemma ClosedStep(before: int, length: int, y: int, prev: int, next: int, base: int)
    requires before == 365 * (y - 1970) + prev - base
    requires length - 365 == next - prev
    ensures before + length == 365 * (y + 1 - 1970) + next - base
  {
  }

  // ---------------------------------------------------------------------------
  // Rendering
  // ---------------------------------------------------------------------------

  /** `f"{n:02d}"` for 0 <= n <= 99. */
  function Pad2(n: int): (s: string)
    requires 0 <= n <= 99
    ensures |s| == 2 && AllDigits(s)
  {
    [DigitChar(n / 10), DigitChar(n % 10)]
  }

  /** The two padded digits read back as n. */
  lemma Pad2Value(n: int)
    requires 0 <= n <= 99
    ensures DecimalSum(Pad2(n)) == n
  {
    var t, u := DigitChar(n / 10), DigitChar(n % 10);
    assert [t] == [] + [t] && Pad2(n) == [t] + [u];
    DecimalSumAppend([], t);
    DecimalSumAppend([t], u);
  }

  /** `f"{month:02d}-{day:02d}-{year}"` (task.py:109). */
  function Format(d: Date): string
    requires ValidDate(d)
  {
    Pad2(d.month) + "-" + Pad2(d.day) + "-" + DecimalString(d.year)
  }

  /** Reading the three numbers back out of a rendered date. */
  function ReadFormatted(s: string): Date
    requires |s| >= 6
  {
    Date(DecimalSum(s[6..]), DecimalSum(s[..2]), DecimalSum(s[3..5]))
  }

  /** The rendering is two digits, a dash, two digits, a dash and the year's
      digits, and the date can be read back from it. */
  lemma FormatRoundTrip(d: Date)
    requires ValidDate(d)
    ensures var s := Format(d);
      && |s| >= 7 && s[2] == '-' && s[5] == '-'
      && AllDigits(s[..2]) && AllDigits(s[3..5]) && AllDigits(s[6..])
      && s[6] != '0'
      && ReadFormatted(s) == d
  {
    var s := Format(d);
    var m, dd, y := Pad2(d.month), Pad2(d.day), DecimalString(d.year);
    assert s == m + "-" + dd + "-" + y;
    assert s[..2] == m && s[3..5] == dd && s[6..] == y;
    Pad2Value(d.month);
    Pad2Value(d.day);
    DecimalStringRoundTrip(d.year);
  }

  // ---------------------------------------------------------------------------
  // my_datetime
  // ---------------------------------------------------------------------------

  /** my_datetime (task.py:79-109): whole years, then whole months, are
      peeled off the day count; what is left is the day of the month. */
  method MyDatetime(numSec: int) returns (s: string)
    requires numSec >= 0
    ensures s == Format(CivilFromDays(numSec / SecondsPerDay))
  {
    var daysSinceEpoch := numSec / SecondsPerDay;
    ghost var total := daysSinceEpoch;
    var daysInMonth := new int[12][31, 28, 31, 30, 31, 30, 31, 31, 30, 31, 30, 31];
    assert daysInMonth[..] == CommonMonthLengths;
    var year, month, day := 1970, 1, 1;

    while true
      invariant daysInMonth[..] == CommonMonthLengths
      invariant year >= 1970 && daysSinceEpoch >= 0
      invariant DaysBeforeYear(year) + daysSinceEpoch == total
      decreases daysSinceEpoch
    {
      var isLeap := IsLeap(year);
      var daysThisYear := if isLeap then 366 else 365;
      if daysSinceEpoch >= daysThisYear {
        daysSinceEpoch := daysSinceEpoch - daysThisYear;
        year := year + 1;
      } else {
        break;
      }
    }

    daysInMonth[1] := if IsLeap(year) then 29 else 28;
    assert daysInMonth[..] == MonthTable(year);

    for i := 0 to 12
      invariant month == i + 1 && 1 <= month <= 12 && daysSinceEpoch >= 0
      invariant DaysBeforeMonth(year, month) + daysSinceEpoch < YearLength(year)
      invariant DaysBeforeYear(year) + DaysBeforeMonth(year, month) + daysSinceEpoch == total
      invariant daysInMonth[..] == MonthTable(year)
    {
      if daysSinceEpoch >= daysInMonth[i] {
        MonthStep(year, month, daysSinceEpoch);
        daysSinceEpoch := daysSinceEpoch - daysInMonth[i];
        month := month + 1;
      } else {
        break;
      }
    }

    day := day + daysSinceEpoch;
    DateOfDayNumber(Date(year, month, day), total);
    s := Format(Date(year, month, day));
  }

  /** Peeling a whole month off what is left of a year never runs past
      December (task.py:100-105). */
  lemma MonthStep(year: int, month: int, days: int)
    requires 1 <= month <= 12 && DaysBeforeMonth(year, month) + days < YearLength(year)
    requires days >= MonthLength(year, month)
    ensures month < 12
    ensures DaysBeforeMonth(year, month + 1) == DaysBeforeMonth(year, month) + MonthLength(year, month)
  {
    MonthsFillYear(year);
  }

  /** The date with day number n is the one CivilFromDays names. */
  lemma DateOfDayNumber(d: Date, n: nat)
    requires ValidDate(d) && DayNumber(d) == n
    ensures CivilFromDays(n) == d
  {
    DayNumberInjective(CivilFromDays(n), d);
  }

  // ---------------------------------------------------------------------------
  // Worked examples
  // ---------------------------------------------------------------------------

  lemma Year1970()
    ensures DecimalString(1970) == "1970"
  {
    assert DecimalString(19) == "19";
    assert DecimalString(197) == "197";
  }

  lemma EpochFormat()
    ensures Format(Date(1970, 1, 1)) == "01-01-1970"
  {
    assert Pad2(1) == "01";
    Year1970();
  }

  /** Every second of the first day falls on 1970-01-01 ... */
  lemma FirstDay(numSec: int)
    requires 0 <= numSec < SecondsPerDay
    ensures CivilFromDays(numSec / SecondsPerDay) == Date(1970, 1, 1)
  {
    var d := Date(1970, 1, 1);
    var n := numSec / SecondsPerDay;
    assert DayNumber(d) == n;
    DayNumberInjective(CivilFromDays(n), d);
  }

  /** ... which renders as 01-01-1970. */
  lemma FirstDayFormat(numSec: int)
    requires 0 <= numSec < SecondsPerDay
    ensures Format(CivilFromDays(numSec / SecondsPerDay)) == "01-01-1970"
  {
    FirstDay(numSec);
    EpochFormat();
  }

  /** Every second of day 1428, 123456789 among them, is 11-29-1973. */
  lemma Example1973(numSec: int)
    requires 1428 * SecondsPerDay <= numSec < 1429 * SecondsPerDay
    ensures Format(CivilFromDays(numSec / SecondsPerDay)) == "11-29-1973"
  {
    var d := Date(1973, 11, 29);
    var n := numSec / SecondsPerDay;
    assert DaysBeforeYear(1973) == 1096;
    DaysBeforeDecember(1973);
    assert DaysBeforeMonth(1973, 11) == 304;
    assert DayNumber(d) == n;
    DayNumberInjective(CivilFromDays(n), d);
    Example1973Format();
  }

  lemma Example1973Format()
    ensures Format(Date(1973, 11, 29)) == "11-29-1973"
  {
    assert Pad2(11) == "11" && Pad2(29) == "29";
    assert DecimalString(19) == "19";
    assert DecimalString(197) == "197";
  }

  /** Every second of day 114311, 9876543210 among them, is 12-22-2282. */
  lemma Example2282(numSec: int)
    requires 114311 * SecondsPerDay <= numSec < 114312 * SecondsPerDay
    ensures Format(CivilFromDays(numSec / SecondsPerDay)) == "12-22-2282"
  {
    var n := numSec / SecondsPerDay;
    Day114311();
    DateOfDayNumber(Date(2282, 12, 22), n);
    Example2282Format();
  }

  lemma Day114311()
    ensures ValidDate(Date(2282, 12, 22)) && DayNumber(Date(2282, 12, 22)) == 114311
  {
    Days2282();
    DaysBeforeDecember(2282);
  }

  lemma Days2282()
    ensures DaysBeforeYear(2282) == 113956
  {
    DaysBeforeYearClosed(2282);
  }

  lemma Example2282Format()
    ensures Format(Date(2282, 12, 22)) == "12-22-2282"
  {
    assert Pad2(12) == "12" && Pad2(22) == "22";
    assert DecimalString(22) == "22";
    assert DecimalString(228) == "228";
  }
}
