/**
 The expiration date of a registration: seconds since the epoch, years of 365 days, and a loop
 that counts leap years.  The result is compared with the calendar date it should be.
 */
module Calendar {

  const SECONDS_PER_DAY := 86400
  const SECONDS_PER_YEAR := 31536000

  datatype Date = Date(year: int, month: int, day: int)

  predicate IsLeap(year: int) {
    year % 4 == 0 && (year % 100 != 0 || year % 400 == 0)
  }

  function Leap(year: int): int { if IsLeap(year) then 1 else 0 }

  // ---------------------------------------------------------------- days since the epoch

  /** The number of leap years up to and including a year, in closed form. */
  function LeapsThrough(year: int): int { year / 4 - year / 100 + year / 400 }

  /** The closed form counts: one more at each leap year. */
  lemma LeapsStep(year: int)
    ensures LeapsThrough(year) == LeapsThrough(year - 1) + Leap(year)
  {
    FourStep(year);
    HundredStep(year);
    FourHundredStep(year);
    Nested(year);
  }

  lemma FourStep(n: int)
    ensures n / 4 == (n - 1) / 4 + if n % 4 == 0 then 1 else 0
  {}

  lemma HundredStep(n: int)
    ensures n / 100 == (n - 1) / 100 + if n % 100 == 0 then 1 else 0
  {}

  lemma FourHundredStep(n: int)
    ensures n / 400 == (n - 1) / 400 + if n % 400 == 0 then 1 else 0
  {}

  lemma Nested(n: int)
    ensures (n % 400 == 0 ==> n % 100 == 0) && (n % 100 == 0 ==> n % 4 == 0)
  {}

  function YearLength(year: int): int { 365 + Leap(year) }

  const DAYS_BEFORE_MONTH := [0, 31, 59, 90, 120, 151, 181, 212, 243, 273, 304, 334, 365]

  /** Days of a year before its month `month`; 13 stands for the end of the year. */
  function DaysBeforeMonth(year: int, month: int): int
    requires 1 <= month <= 13
  {
    DAYS_BEFORE_MONTH[month - 1] + if month > 2 then Leap(year) else 0
  }

  function DaysBeforeYear(year: int): int {
    365 * (year - 1970) + LeapsThrough(year - 1) - LeapsThrough(1969)
  }

  predicate ValidDate(d: Date) {
    1970 <= d.year && 1 <= d.month <= 12
    && 1 <= d.day <= DaysBeforeMonth(d.year, d.month + 1) - DaysBeforeMonth(d.year, d.month)
  }

  /** The day of a date, counted from 1 January 1970. */
  function DayNumber(d: Date): int
    requires 1 <= d.month <= 12
  {
    DaysBeforeYear(d.year) + DaysBeforeMonth(d.year, d.month) + d.day - 1
  }

  // ---------------------------------------------------------------- localtime

  /** The year and day of the year, by taking off one year after the other. */
  function YearFrom(year: int, days: nat): (r: (int, nat))
    ensures year <= r.0 && r.1 < YearLength(r.0)
    decreases days
  {
    if days < YearLength(year) then (year, days) else YearFrom(year + 1, days - YearLength(year))
  }

  /** The month of a day of the year, likewise. */
  function MonthFrom(year: int, month: int, day: nat): (r: int)
    requires 1 <= month <= 12 && day < YearLength(year) && DaysBeforeMonth(year, month) <= day
    ensures 1 <= r <= 12 && DaysBeforeMonth(year, r) <= day < DaysBeforeMonth(year, r + 1)
    decreases 12 - month
  {
    if day < DaysBeforeMonth(year, month + 1) then month else MonthFrom(year, month + 1, day)
  }

  /** The date of a day counted from 1 January 1970. */
  function LocalDate(days: nat): Date {
    var (year, day) := YearFrom(1970, days);
    var month := MonthFrom(year, 1, day);
    Date(year, month, day - DaysBeforeMonth(year, month) + 1)
  }

  lemma {:induction false} YearFromIs(start: int, year: int, day: nat)
    requires start <= year && day < YearLength(year)
    ensures DaysBeforeYear(year) >= DaysBeforeYear(start)
    ensures YearFrom(start, DaysBeforeYear(year) - DaysBeforeYear(start) + day) == (year, day)
    decreases year - start
  {
    LeapsStep(start);
    if start < year { YearFromIs(start + 1, year, day); }
  }

  /** Counting days and reading them back are inverse. */
  lemma LocalDateIs(d: Date)
    requires ValidDate(d)
    ensures DayNumber(d) >= 0 && LocalDate(DayNumber(d)) == d
  {
    var day := DaysBeforeMonth(d.year, d.month) + d.day - 1;
    assert DaysBeforeMonth(d.year, d.month + 1) <= YearLength(d.year);
    YearFromIs(1970, d.year, day);
    var month := MonthFrom(d.year, 1, day);
    MonthsDisjoint(d.year, month, d.month, day);
  }

  lemma MonthsDisjoint(year: int, m: int, n: int, day: int)
    requires 1 <= m <= 12 && 1 <= n <= 12
    requires DaysBeforeMonth(year, m) <= day < DaysBeforeMonth(year, m + 1)
    requires DaysBeforeMonth(year, n) <= day < DaysBeforeMonth(year, n + 1)
    ensures m == n
  {}

  lemma LocalDateValid(days: nat)
    ensures ValidDate(LocalDate(days)) && DayNumber(LocalDate(days)) == days
  {
    YearFromDays(1970, days);
  }

  lemma {:induction false} YearFromDays(start: int, days: nat)
    ensures var (year, day) := YearFrom(start, days); DaysBeforeYear(year) + day == DaysBeforeYear(start) + days
    decreases days
  {
    LeapsStep(start);
    if days >= YearLength(start) { YearFromDays(start + 1, days - YearLength(start)); }
  }

  // ---------------------------------------------------------------- day by day

  /** Thirty days have April, June, September and November, all the rest thirty-one, but for February. */
  function DaysIn(year: int, month: int): int {
    if month in {4, 6, 9, 11} then 30
    else if month != 2 then 31
    else if year % 4 == 0 && (year % 100 != 0 || year % 400 == 0) then 29
    else 28
  }

  /** The day after a date. */
  function Tomorrow(d: Date): Date {
    if d.day < DaysIn(d.year, d.month) then Date(d.year, d.month, d.day + 1)
    else if d.month < 12 then Date(d.year, d.month + 1, 1)
    else Date(d.year + 1, 1, 1)
  }

  lemma DaysInMonth(year: int, month: int)
    requires 1 <= month <= 12
    ensures DaysBeforeMonth(year, month + 1) - DaysBeforeMonth(year, month) == DaysIn(year, month)
  {}

  lemma TomorrowIs(d: Date)
    requires ValidDate(d)
    ensures ValidDate(Tomorrow(d)) && DayNumber(Tomorrow(d)) == DayNumber(d) + 1
  {
    hide LeapsThrough, IsLeap, DaysIn, DaysBeforeMonth;
    DaysInMonth(d.year, d.month);
    var t := Tomorrow(d);
    DaysInMonth(t.year, t.month);
    DaysPositive(t.year, t.month);
    YearEnds(d.year);
  }

  lemma YearEnds(year: int)
    ensures DaysBeforeMonth(year, 13) == 365 + Leap(year) && DaysBeforeMonth(year + 1, 1) == 0
    ensures LeapsThrough(year) == LeapsThrough(year - 1) + Leap(year)
  {
    LeapsStep(year);
  }

  /** Dates are counted from 1 January 1970, one day after the other. */
  lemma NextDay(days: nat)
    ensures LocalDate(0) == Date(1970, 1, 1)
    ensures LocalDate(days + 1) == Tomorrow(LocalDate(days))
  {
    FirstDay();
    hide ValidDate, DayNumber, Tomorrow, LocalDate;
    LocalDateValid(days);
    TomorrowIs(LocalDate(days));
    LocalDateIs(Tomorrow(LocalDate(days)));
  }

  lemma FirstDay()
    ensures LocalDate(0) == Date(1970, 1, 1)
  {
    LocalDateIs(Date(1970, 1, 1));
  }

  lemma DaysPositive(year: int, month: int)
    ensures DaysIn(year, month) >= 28
  {}

  // ---------------------------------------------------------------- the program

  /** The leap date of the year is still ahead. */
  predicate BeforeLeapDate(d: Date) { d.month == 1 || (d.month == 2 && d.day < 29) }

  /** What the loop over the years `year .. endYear` counts. */
  function LeapsCounted(today: Date, endYear: int): int {
    if endYear < today.year then 0
    else LeapsThrough(endYear) - LeapsThrough(today.year) + if BeforeLeapDate(today) then Leap(today.year) else 0
  }

  /** The years of 365 days that are added; a start year is only looked at if it is ahead. */
  function YearsAdded(today: Date, startYear: int, period: nat): int {
    period + if startYear != 0 && startYear > today.year then startYear - today.year else 0
  }

  function ExpirationDay(today: Date, startYear: int, period: nat): int
    requires 1 <= today.month <= 12
  {
    DayNumber(today) + 365 * YearsAdded(today, startYear, period) + LeapsCounted(today, startYear + period)
  }

  /** `expiration_date`, with the clock and a fixed time zone given; `localtime` of an instant is the
      date of its day and the seconds since midnight. */
  method ExpirationDate(startYear: int, period: nat, now: int, offset: int) returns (date: Date, seconds: nat)
    requires now + offset >= 0
    ensures var today := LocalDate((now + offset) / SECONDS_PER_DAY);
            ExpirationDay(today, startYear, period) >= 0
            && date == LocalDate(ExpirationDay(today, startYear, period))
    ensures seconds == (now + offset) % SECONDS_PER_DAY
  {
    hide LeapsThrough, LocalDate;
    var thenSec := now + SECONDS_PER_YEAR * period;
    var today := LocalDate((now + offset) / SECONDS_PER_DAY);
    LocalDateValid((now + offset) / SECONDS_PER_DAY);
    var year := today.year;
    if startYear != 0 {
      var yearDelta := startYear - year;
      if yearDelta > 0 {
        thenSec := thenSec + yearDelta * SECONDS_PER_YEAR;
      }
    }
    var endYear := year + (startYear - year) + period;
    var leapYears := 0;
    var tempYear := year;
    while tempYear <= endYear
      invariant year <= tempYear && (if endYear >= year then tempYear <= endYear + 1 else tempYear == year)
      invariant leapYears == if tempYear == year then 0 else LeapsCounted(today, tempYear - 1)
      invariant leapYears >= 0
    {
      LeapsStep(tempYear);
      ghost var before := leapYears;
      if tempYear % 4 == 0 {
        if tempYear % 100 == 0 {
          if tempYear % 400 == 0 {
            if tempYear == year {
              if today.month == 1 || (today.month == 2 && today.day < 29) { leapYears := leapYears + 1; }
            } else {
              leapYears := leapYears + 1;
            }
          }
        } else {
          if tempYear == year {
            if today.month == 1 || (today.month == 2 && today.day < 29) { leapYears := leapYears + 1; }
          } else {
            leapYears := leapYears + 1;
          }
        }
      }
      assert leapYears == before + if tempYear != year || BeforeLeapDate(today) then Leap(tempYear) else 0;
      tempYear := tempYear + 1;
    }
    thenSec := thenSec + SECONDS_PER_DAY * leapYears;
    DayAndSeconds(now + offset, thenSec + offset, 365 * YearsAdded(today, startYear, period) + leapYears);
    assert (thenSec + offset) / SECONDS_PER_DAY == ExpirationDay(today, startYear, period);
    date, seconds := LocalDate((thenSec + offset) / SECONDS_PER_DAY), (thenSec + offset) % SECONDS_PER_DAY;
  }

  lemma DayAndSeconds(t: nat, u: int, days: int)
    requires u == t + SECONDS_PER_DAY * days
    ensures u / SECONDS_PER_DAY == t / SECONDS_PER_DAY + days && u % SECONDS_PER_DAY == t % SECONDS_PER_DAY
  {}

  // ---------------------------------------------------------------- what date that is

  /** The same month and day in another year; the end of February for 29 February. */
  function DueDate(today: Date, year: int): Date {
    if today.month >= 3 || BeforeLeapDate(today) then Date(year, today.month, today.day)
    else Date(year, 2, 28 + Leap(year))
  }

  /** The leap years between the year the loop stops at and the end year, which are not counted; minus
      one for a leap year at the end whose leap day is counted too early. */
  function Uncounted(today: Date, startYear: int, period: nat): int {
    var end, last := today.year + YearsAdded(today, startYear, period), startYear + period;
    var before := BeforeLeapDate(today);
    LeapsThrough(if before then end - 1 else end)
    - LeapsThrough(if last >= today.year then last else if before then today.year - 1 else today.year)
  }

  lemma {:induction false} LeapsGrow(a: int, b: int)
    requires a <= b
    ensures LeapsThrough(a) <= LeapsThrough(b)
    decreases b - a
  {
    hide LeapsThrough;
    if a < b {
      LeapsStep(b);
      LeapsGrow(a, b - 1);
    }
  }

  lemma CountedNotNegative(today: Date, endYear: int)
    ensures LeapsCounted(today, endYear) >= 0
  {
    if endYear >= today.year { LeapsGrow(today.year, endYear); }
  }

  /** For every date and every start year, none, past, present or future: the registration runs to its
      due date less the leap years that are not counted, and to the due date itself if and only if
      there are none. */
  lemma ExpirationFor(today: Date, startYear: int, period: nat)
    requires ValidDate(today)
    ensures ExpirationDay(today, startYear, period) >= 0
    ensures var due := DueDate(today, period + if startYear > today.year then startYear else today.year);
            ValidDate(due)
            && ExpirationDay(today, startYear, period) == DayNumber(due) - Uncounted(today, startYear, period)
            && (LocalDate(ExpirationDay(today, startYear, period)) == due <==> Uncounted(today, startYear, period) == 0)
  {
    hide LeapsThrough, IsLeap, LocalDate;
    var end := today.year + YearsAdded(today, startYear, period);
    LeapsStep(today.year);
    LeapsStep(end);
    CountedNotNegative(today, startYear + period);
    LocalDateIs(today);
    var due := DueDate(today, end);
    LocalDateIs(due);
    LocalDateValid(ExpirationDay(today, startYear, period));
  }

  /** With a start year not behind the current one, the registration runs to the same month and day
      in the end year from March on; before the leap date it runs one day longer if the end year is a
      leap year; from 29 February it runs to the end of February. */
  lemma ExpirationIs(today: Date, startYear: int, period: nat)
    requires ValidDate(today) && startYear >= today.year
    ensures ExpirationDay(today, startYear, period) >= 0
    ensures var end, date := startYear + period, LocalDate(ExpirationDay(today, startYear, period));
            if today.month >= 3 then date == Date(end, today.month, today.day)
            else if !BeforeLeapDate(today) then date == Date(end, 2, 28 + Leap(end))
            else ExpirationDay(today, startYear, period) == DayNumber(Date(end, today.month, today.day)) + Leap(end)
  {
    hide LeapsThrough, IsLeap, LocalDate, ExpirationDay;
    ExpirationFor(today, startYear, period);
    LeapsStep(startYear + period);
  }

  /** So the date is the anniversary exactly from March on, before the leap date when the end year is
      no leap year, and on 29 February when it is one. */
  lemma AnniversaryExactly(today: Date, startYear: int, period: nat)
    requires ValidDate(today) && startYear >= today.year
    ensures ExpirationDay(today, startYear, period) >= 0
    ensures LocalDate(ExpirationDay(today, startYear, period)) == Date(startYear + period, today.month, today.day)
            <==> today.month >= 3 || (IsLeap(startYear + period) <==> !BeforeLeapDate(today))
  {
    hide LeapsThrough, IsLeap, LocalDate, ExpirationDay;
    ExpirationIs(today, startYear, period);
    LocalDateValid(ExpirationDay(today, startYear, period));
    if BeforeLeapDate(today) { LocalDateIs(Date(startYear + period, today.month, today.day)); }
  }

  /** The leap days between a day and its due date in the year `end`. */
  function LeapDaysUntil(today: Date, end: int): int {
    if BeforeLeapDate(today) then LeapsThrough(end - 1) - LeapsThrough(today.year - 1)
    else LeapsThrough(end) - LeapsThrough(today.year)
  }

  /** Without a start year, or with one so far back that the period ends before the current year, no
      leap day is counted: the date falls short by all leap days up to the due date. */
  lemma NothingCounted(today: Date, startYear: int, period: nat)
    requires ValidDate(today) && startYear + period < today.year
    ensures ExpirationDay(today, startYear, period) >= 0
    ensures var due := DueDate(today, today.year + period);
            ExpirationDay(today, startYear, period) == DayNumber(due) - LeapDaysUntil(today, today.year + period)
            && (LocalDate(ExpirationDay(today, startYear, period)) == due
                <==> LeapDaysUntil(today, today.year + period) == 0)
  {
    hide LeapsThrough, IsLeap, LocalDate, ExpirationDay;
    ExpirationFor(today, startYear, period);
  }
}
