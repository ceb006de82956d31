/**
 * utils.js: `getUTCDate`, which drops the time of day of a Date, and the
 * candle-body variant of `calculateConsecutiveDownWeeks`, which counts red
 * candles (close below open) from the last completed period back.
 */
module Utils {
  import opened Wrappers
  import opened Calendar
  import opened JsNumbers
  import opened JsDates
  import opened Streaks

  /**
   * getUTCDate: `new Date(y, m, d)` on the UTC year, month and day of time
   * value t, that is midnight of that civil date, except that the constructor
   * reads a year from 0 to 99 as 1900 + y (see CenturyZeroYear).
   */
  function GetUtcDate(t: int): (r: int)
    ensures TimeWithinDay(r) == 0
    ensures !(0 <= YearFromTime(t) <= 99) ==> Day(r) == Day(t) && r <= t < r + MsPerDay
  {
    var n := MakeDay(MakeFullYear(YearFromTime(t)), MonthFromTime(t), DateFromTime(t));
    MidnightOf(t, n);
    MakeDate(n, 0)
  }

  /** Outside the years 0 to 99, the day getUTCDate builds is the day of t itself. */
  lemma MidnightOf(t: int, n: int)
    requires n == MakeDay(MakeFullYear(YearFromTime(t)), MonthFromTime(t), DateFromTime(t))
    ensures TimeWithinDay(MakeDate(n, 0)) == 0
    ensures !(0 <= YearFromTime(t) <= 99) ==> Day(MakeDate(n, 0)) == Day(t) && MakeDate(n, 0) <= t < MakeDate(n, 0) + MsPerDay
  {
    MakeDateParts(n, 0);
    if !(0 <= YearFromTime(t) <= 99) {
      assert n == MakeDay(YearFromTime(t), MonthFromTime(t), DateFromTime(t));
      MakeDayOfTime(t, DateFromTime(t));
      assert n == Day(t);
    }
  }

  /** A date in the years 0 to 99 lands on the same month and day of 1900 + y, when that day exists. */
  lemma CenturyZeroYear(t: int, c: Date)
    requires c == DateOfTime(t)
    ensures 0 <= c.year <= 99 && c.day <= DaysInMonth(1900 + c.year, c.month) ==>
      DateOfTime(GetUtcDate(t)) == Date(1900 + c.year, c.month, c.day)
  {
    var n := MakeDay(MakeFullYear(YearFromTime(t)), MonthFromTime(t), DateFromTime(t));
    MakeDateParts(n, 0);
    assert GetUtcDate(t) == MakeDate(n, 0);
    if 0 <= c.year <= 99 && c.day <= DaysInMonth(1900 + c.year, c.month) {
      assert MakeFullYear(YearFromTime(t)) == 1900 + c.year;
      assert MonthFromTime(t) == c.month - 1 && DateFromTime(t) == c.day;
      MonthInYear(1900 + c.year, c.month, c.day, n);
    }
  }

  /** MakeDay on a 0-based month inside the year and a day inside the month names that civil date. */
  lemma MonthInYear(y: int, m: int, date: int, n: int)
    requires 1 <= m <= 12 && 1 <= date <= DaysInMonth(y, m)
    requires n == MakeDay(y, m - 1, date)
    ensures FromDayNumber(n) == Date(y, m, date)
  {
    assert (m - 1) / 12 == 0 && (m - 1) % 12 == m - 1;
    MakeDayInMonth(y, m - 1, date);
  }

  /** The civil date of the day number getUTCDate builds, for a day number a given by the caller. */
  lemma UtcDateDay(t: int, a: int, c: Date)
    requires a == Day(GetUtcDate(t)) && c == DateOfTime(t)
    ensures !(0 <= c.year <= 99) ==> FromDayNumber(a) == c
    ensures 0 <= c.year <= 99 && c.day <= DaysInMonth(1900 + c.year, c.month) ==>
      FromDayNumber(a) == Date(1900 + c.year, c.month, c.day)
  {
    assert FromDayNumber(a) == DateOfTime(GetUtcDate(t));
    if 0 <= c.year <= 99 {
      CenturyZeroYear(t, c);
    } else {
      assert YearFromTime(t) == c.year;
      assert a == Day(t);
    }
  }

  /** The one date of those years missing from 1900 + y: 29 February of year 0 rolls over to 1 March 1900. */
  lemma LeapDayOfYearZero(t: int)
    requires DateOfTime(t) == Date(0, 2, 29)
    ensures DateOfTime(GetUtcDate(t)) == Date(1900, 3, 1)
  {
    var n := MakeDay(1900, 1, 29);
    assert MakeDay(MakeFullYear(YearFromTime(t)), MonthFromTime(t), DateFromTime(t)) == n;
    MakeDateParts(n, 0);
    MakeDayOfDate(Date(1900, 2, 1), 29);
    EarlyFebruary1900();
    DayNumberRoundTrip(Date(1900, 3, 1));
  }

  /** The day numbers of 1 February and 1 March 1900, 28 days apart: 1900 is not a leap year. */
  lemma EarlyFebruary1900()
    ensures DayNumber(Date(1900, 2, 1)) == -25536
    ensures DayNumber(Date(1900, 3, 1)) == -25508
  {
  }

  /**
   * Candle-body down count of two series: each is scanned from index 1 (the
   * last completed period) and counts while the period closed below its own
   * open; a NaN open or close ends the scan without counting. The result is
   * the smaller of the two counts. `frequency` is accepted and not used.
   */
  method CalculateConsecutiveDownWeeks(nasdaqEntries: Option<seq<Period>>, sp500Entries: Option<seq<Period>>, frequency: string)
    returns (downPeriods: nat)
    ensures nasdaqEntries.None? || sp500Entries.None? ==> downPeriods == 0
    ensures nasdaqEntries.Some? && sp500Entries.Some? && (|nasdaqEntries.value| < 2 || |sp500Entries.value| < 2) ==> downPeriods == 0
    ensures nasdaqEntries.Some? && sp500Entries.Some? && |nasdaqEntries.value| >= 2 && |sp500Entries.value| >= 2 ==>
              downPeriods == Min(CandleDownRun(nasdaqEntries.value, 1), CandleDownRun(sp500Entries.value, 1))
    ensures nasdaqEntries.Some? && sp500Entries.Some? && |nasdaqEntries.value| >= 2 && |sp500Entries.value| >= 2 ==>
              downPeriods <= |nasdaqEntries.value| - 1 && downPeriods <= |sp500Entries.value| - 1
  {
    if nasdaqEntries.None? || sp500Entries.None? {
      return 0;
    }
    var nasdaq, sp500 := nasdaqEntries.value, sp500Entries.value;
    if |nasdaq| < 2 || |sp500| < 2 {
      return 0;
    }
    var nasdaqDownPeriods := 0;
    var sp500DownPeriods := 0;

    for i := 1 to |nasdaq|
      invariant nasdaqDownPeriods == i - 1
      invariant nasdaqDownPeriods + CandleDownRun(nasdaq, i) == CandleDownRun(nasdaq, 1)
    {
      var currentOpen := nasdaq[i].open;
      var currentClose := nasdaq[i].close;
      if currentOpen.None? || currentClose.None? {
        break;
      }
      if currentClose.value < currentOpen.value {
        nasdaqDownPeriods := nasdaqDownPeriods + 1;
      } else {
        break;
      }
    }

    for i := 1 to |sp500|
      invariant sp500DownPeriods == i - 1
      invariant sp500DownPeriods + CandleDownRun(sp500, i) == CandleDownRun(sp500, 1)
    {
      var currentOpen := sp500[i].open;
      var currentClose := sp500[i].close;
      if currentOpen.None? || currentClose.None? {
        break;
      }
      if currentClose.value < currentOpen.value {
        sp500DownPeriods := sp500DownPeriods + 1;
      } else {
        break;
      }
    }

    CandleDownRunMaximal(nasdaq, 1);
    CandleDownRunMaximal(sp500, 1);
    downPeriods := Min(nasdaqDownPeriods, sp500DownPeriods);
  }

  /** Index 0, the period still in progress, never affects the count. */
  lemma CurrentPeriodIgnored(nasdaq: seq<Period>, sp500: seq<Period>, p: Period, q: Period)
    requires |nasdaq| >= 2 && |sp500| >= 2
    ensures Min(CandleDownRun(nasdaq, 1), CandleDownRun(sp500, 1)) ==
            Min(CandleDownRun(nasdaq[0 := p], 1), CandleDownRun(sp500[0 := q], 1))
  {
    CandleDownRunIgnoresPrefix(nasdaq, nasdaq[0 := p], 1);
    CandleDownRunIgnoresPrefix(sp500, sp500[0 := q], 1);
  }

  /** A NaN field at index j of either series caps the count at j - 1. */
  lemma NonNumericCapsCount(nasdaq: seq<Period>, sp500: seq<Period>, j: nat)
    requires 1 <= j
    requires (j < |nasdaq| && !Numeric(nasdaq[j])) || (j < |sp500| && !Numeric(sp500[j]))
    ensures Min(CandleDownRun(nasdaq, 1), CandleDownRun(sp500, 1)) <= j - 1
  {
    if j < |nasdaq| && !Numeric(nasdaq[j]) {
      NonNumericStopsCandleRun(nasdaq, 1, j);
    } else {
      NonNumericStopsCandleRun(sp500, 1, j);
    }
  }
}
