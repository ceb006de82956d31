/**
 * popup.js: its own down-streak counter (close over close, the larger of the
 * two series' counts), an integer percentage of 10 points per down day, the
 * amount scaled from a base of 100, and a scheduler that moves a week on from
 * the last investment and then forward to the next Tuesday, moving the
 * caller's `today` Date when there is no last investment.
 */
module Popup {
  import opened Wrappers
  import opened Calendar
  import opened JsNumbers
  import opened JsDates
  import opened Streaks
  import opened DateStrings

  const BaseInvestmentAmount: int := 100

  /** The week day investments fall on: 2, Tuesday. */
  const InvestmentDay: int := 2

  // ---------------------------------------------------------------------
  // calculateConsecutiveDownDays

  /**
   * Each series is scanned from index 1 and counts while the close is below
   * the close of the newer entry before it; a NaN close ends the scan. The
   * result is the larger of the two counts.
   */
  method CalculateConsecutiveDownDays(nasdaqEntries: seq<Period>, sp500Entries: seq<Period>)
    returns (downDays: nat)
    ensures downDays == Max(CloseDownRun(nasdaqEntries, 1), CloseDownRun(sp500Entries, 1))
    ensures CloseDownRun(nasdaqEntries, 1) <= downDays && CloseDownRun(sp500Entries, 1) <= downDays
    ensures |nasdaqEntries| < 2 && |sp500Entries| < 2 ==> downDays == 0
    ensures downDays == 0 || downDays <= Max(|nasdaqEntries|, |sp500Entries|) - 1
  {
    var nasdaqDownDays := 0;
    var sp500DownDays := 0;

    var i := 1;
    while i < |nasdaqEntries|
      invariant 1 <= i
      invariant nasdaqDownDays == i - 1
      invariant nasdaqDownDays + CloseDownRun(nasdaqEntries, i) == CloseDownRun(nasdaqEntries, 1)
    {
      var prevClose := nasdaqEntries[i - 1].close;
      var currClose := nasdaqEntries[i].close;
      if Below(currClose, prevClose) {
        nasdaqDownDays := nasdaqDownDays + 1;
      } else {
        break;
      }
      i := i + 1;
    }

    i := 1;
    while i < |sp500Entries|
      invariant 1 <= i
      invariant sp500DownDays == i - 1
      invariant sp500DownDays + CloseDownRun(sp500Entries, i) == CloseDownRun(sp500Entries, 1)
    {
      var prevClose := sp500Entries[i - 1].close;
      var currClose := sp500Entries[i].close;
      if Below(currClose, prevClose) {
        sp500DownDays := sp500DownDays + 1;
      } else {
        break;
      }
      i := i + 1;
    }

    CloseDownRunMaximal(nasdaqEntries, 1);
    CloseDownRunMaximal(sp500Entries, 1);
    downDays := Max(nasdaqDownDays, sp500DownDays);
  }

  // ---------------------------------------------------------------------
  // calculateInvestmentPercentage and the amount

  /** 100 with no down days (or a count that is not positive), else 10 points more per down day. */
  function CalculateInvestmentPercentage(consecutiveDownDays: int): (pct: int)
    ensures pct >= 100
    ensures pct == 100 <==> consecutiveDownDays <= 0
    ensures consecutiveDownDays > 0 ==> (pct - 100) % 10 == 0 && (pct - 100) / 10 == consecutiveDownDays
  {
    if consecutiveDownDays <= 0 then 100 else 100 + consecutiveDownDays * 10
  }

  /** One more down day adds ten points once the count is positive, and never lowers the percentage. */
  lemma PercentageStep(n: int)
    ensures CalculateInvestmentPercentage(n) <= CalculateInvestmentPercentage(n + 1)
    ensures n >= 1 ==> CalculateInvestmentPercentage(n + 1) == CalculateInvestmentPercentage(n) + 10
  {
  }

  /** More down days never give a smaller percentage. */
  lemma {:induction false} PercentageMonotone(fewer: int, more: int)
    requires fewer <= more
    ensures CalculateInvestmentPercentage(fewer) <= CalculateInvestmentPercentage(more)
    decreases more - fewer
  {
    if fewer < more {
      PercentageMonotone(fewer, more - 1);
      PercentageStep(more - 1);
    }
  }

  /** `(baseInvestmentAmount * investmentPercentage) / 100`: the percentage of a base of 100, so the percentage itself. */
  function InvestmentAmount(investmentPercentage: int): (amount: real)
    ensures amount == investmentPercentage as real
  {
    (BaseInvestmentAmount * investmentPercentage) as real / 100.0
  }

  /** Whatever the count, at least the base amount is invested. */
  lemma AmountAtLeastBase(consecutiveDownDays: int)
    ensures InvestmentAmount(CalculateInvestmentPercentage(consecutiveDownDays)) >= BaseInvestmentAmount as real
  {
  }

  // ---------------------------------------------------------------------
  // calculateNextInvestmentDate

  /** A last date that is absent (None) or the empty string is falsy: the scheduler starts from today. */
  predicate Falsy(lastDateStr: Option<string>) {
    lastDateStr.None? || lastDateStr.value == ""
  }

  /** The day number `(investmentDay - getDay() + 7) % 7` days after day n. */
  function TuesdayOnOrAfter(n: int): int {
    n + JsRemainder(InvestmentDay - WeekDay(n) + 7, 7)
  }

  /**
   * The day number the Tuesday search starts from: today's, or a week after
   * the last date when there is one; None when the last date is not a date
   * string `new Date` reads, so that the Date is invalid.
   */
  function StartDay(lastDateStr: Option<string>, todayTime: int): Option<int> {
    if Falsy(lastDateStr) then Some(Day(todayTime))
    else
      match ParseIsoDate(lastDateStr.value)
      case None => None
      case Some(d) => Some(DayNumber(d) + 7)
  }

  /** The string the scheduler returns; an invalid Date prints every field as NaN. */
  function NextInvestmentDateString(lastDateStr: Option<string>, todayTime: int): string {
    match StartDay(lastDateStr, todayTime)
    case None => "NaN-NaN-NaN"
    case Some(n) => FormatYmd(FromDayNumber(TuesdayOnOrAfter(n)))
  }

  /**
   * The scheduler. With no last date `nextDate` is the caller's `today`
   * itself, so the caller's Date is moved to the Tuesday; with one, a new
   * Date is read from the string, moved a week on and then to the Tuesday,
   * and `today` is left alone. An unreadable string gives an invalid Date,
   * which stays invalid through the setters.
   */
  method CalculateNextInvestmentDate(lastDateStr: Option<string>, today: JsDate) returns (next: string)
    modifies today
    ensures next == NextInvestmentDateString(lastDateStr, old(today.time))
    ensures Falsy(lastDateStr) ==>
              today.time == old(today.time) + (TuesdayOnOrAfter(Day(old(today.time))) - Day(old(today.time))) * MsPerDay
    ensures !Falsy(lastDateStr) ==> today.time == old(today.time)
  {
    var nextDate := today;
    if lastDateStr.Some? && lastDateStr.value != "" {
      var parsed := ParseIsoDate(lastDateStr.value);
      if parsed.None? {
        return "NaN-NaN-NaN";
      }
      nextDate := new JsDate(TimeOfDate(parsed.value));
      var weekOn := nextDate.GetDate() + 7;
      nextDate.SetDate(weekOn);
      WeekLater(parsed.value, weekOn, nextDate.time);
      ParsedStart(lastDateStr, old(today.time), parsed.value, Day(nextDate.time));
    } else {
      TodayStart(lastDateStr, old(today.time));
    }
    ghost var start := nextDate.time;
    ghost var startDay := Day(start);

    var dayOfWeek := nextDate.GetDay();
    var daysUntilTuesday := JsRemainder(InvestmentDay - dayOfWeek + 7, 7);
    var tuesdayDate := nextDate.GetDate() + daysUntilTuesday;
    nextDate.SetDate(tuesdayDate);
    TuesdayStep(start, dayOfWeek, daysUntilTuesday, tuesdayDate, nextDate.time);

    var landed := Date(nextDate.GetFullYear(), nextDate.GetMonth() + 1, nextDate.GetDate());
    FieldsOfTime(nextDate.time, landed);
    next := FormatYmd(landed);
    ResultStep(lastDateStr, old(today.time), startDay, landed, next);
  }

  /**
   * The Date read from a last date string, moved by `setDate(getDate() + 7)`,
   * lies a week after that date.
   */
  lemma WeekLater(d: Date, dt: int, t: int)
    requires Valid(d)
    requires dt == DateFromTime(TimeOfDate(d)) + 7
    requires t == SetDateValue(TimeOfDate(d), dt)
    ensures Day(t) == DayNumber(d) + 7
  {
    MakeDateParts(DayNumber(d), 0);
    ShiftDaysDate(TimeOfDate(d), t, 7, DayNumber(d) + 7);
  }

  // Step lemmas for CalculateNextInvestmentDate: each only unfolds one step
  // of NextInvestmentDateString, so that the method's own proof stays small.

  /** A last date string that reads as date d starts the search a week after d. */
  lemma ParsedStart(lastDateStr: Option<string>, todayTime: int, d: Date, n: int)
    requires !Falsy(lastDateStr) && ParseIsoDate(lastDateStr.value) == Some(d)
    requires n == DayNumber(d) + 7
    ensures StartDay(lastDateStr, todayTime) == Some(n)
  {
  }

  /** With no last date the search starts from today's Date itself. */
  lemma TodayStart(lastDateStr: Option<string>, todayTime: int)
    requires Falsy(lastDateStr)
    ensures StartDay(lastDateStr, todayTime) == Some(Day(todayTime))
  {
  }

  /** The Tuesday step moves whole days, to the day TuesdayOnOrAfter names, at the same time of day. */
  lemma TuesdayStep(start: int, dayOfWeek: int, days: int, dt: int, after: int)
    requires dayOfWeek == WeekDayFromTime(start)
    requires days == JsRemainder(InvestmentDay - dayOfWeek + 7, 7)
    requires dt == DateFromTime(start) + days
    requires after == SetDateValue(start, dt)
    ensures DateOfTime(after) == FromDayNumber(TuesdayOnOrAfter(Day(start)))
    ensures after == start + (TuesdayOnOrAfter(Day(start)) - Day(start)) * MsPerDay
  {
    assert days == TuesdayOnOrAfter(Day(start)) - Day(start);
    ShiftDaysDate(start, after, days, TuesdayOnOrAfter(Day(start)));
    ShiftDays(start, days);
  }

  /** The string built from the landed date is the one NextInvestmentDateString names. */
  lemma ResultStep(lastDateStr: Option<string>, todayTime: int, startDay: int, landed: Date, next: string)
    requires StartDay(lastDateStr, todayTime) == Some(startDay)
    requires landed == FromDayNumber(TuesdayOnOrAfter(startDay))
    requires next == FormatYmd(landed)
    ensures next == NextInvestmentDateString(lastDateStr, todayTime)
  {
  }

  /** From day n the step reaches the first Tuesday on or after n, 0 to 6 days later. */
  lemma TuesdayOnOrAfterFirst(n: int)
    ensures n <= TuesdayOnOrAfter(n) <= n + 6
    ensures WeekDay(TuesdayOnOrAfter(n)) == InvestmentDay
    ensures forall d :: n <= d < TuesdayOnOrAfter(n) ==> WeekDay(d) != InvestmentDay
  {
    DaysUntilWeekDay(n, InvestmentDay);
  }

  /** Seven days on, the week day is the same. */
  lemma WeekDayWeekLater(n: int)
    ensures WeekDay(n + 7) == WeekDay(n)
  {
  }

  /** The string for a given start day: the date of the Tuesday search from it. */
  lemma ScheduleOfStart(lastDateStr: Option<string>, todayTime: int, n: int)
    requires StartDay(lastDateStr, todayTime) == Some(n)
    ensures NextInvestmentDateString(lastDateStr, todayTime) == FormatYmd(FromDayNumber(TuesdayOnOrAfter(n)))
  {
  }

  /** With no last date, the result is the first Tuesday on or after today. */
  lemma NoLastDateSchedule(lastDateStr: Option<string>, todayTime: int)
    requires Falsy(lastDateStr)
    ensures exists r ::
      && NextInvestmentDateString(lastDateStr, todayTime) == FormatYmd(FromDayNumber(r))
      && Day(todayTime) <= r <= Day(todayTime) + 6
      && WeekDay(r) == InvestmentDay
      && (forall d :: Day(todayTime) <= d < r ==> WeekDay(d) != InvestmentDay)
  {
    var n := Day(todayTime);
    TuesdayOnOrAfterFirst(n);
    ScheduleOfStart(lastDateStr, todayTime, n);
  }

  /**
   * With a last date: a string `new Date` cannot read gives "NaN-NaN-NaN";
   * a date gives a Tuesday 7 to 13 days after it, exactly 7 when the last
   * date was itself a Tuesday.
   */
  lemma LastDateSchedule(lastDateStr: Option<string>, todayTime: int)
    requires !Falsy(lastDateStr)
    ensures ParseIsoDate(lastDateStr.value).None? ==> NextInvestmentDateString(lastDateStr, todayTime) == "NaN-NaN-NaN"
    ensures ParseIsoDate(lastDateStr.value).Some? ==>
      var n := DayNumber(ParseIsoDate(lastDateStr.value).value);
      exists r ::
        && NextInvestmentDateString(lastDateStr, todayTime) == FormatYmd(FromDayNumber(r))
        && n + 7 <= r <= n + 13
        && WeekDay(r) == InvestmentDay
        && (WeekDay(n) == InvestmentDay ==> r == n + 7)
  {
    if ParseIsoDate(lastDateStr.value).Some? {
      var n := DayNumber(ParseIsoDate(lastDateStr.value).value);
      var start := n + 7;
      assert StartDay(lastDateStr, todayTime) == Some(start);
      TuesdayOnOrAfterFirst(start);
      WeekDayWeekLater(n);
      ScheduleOfStart(lastDateStr, todayTime, start);
    }
  }

  /**
   * A date the popup stored itself (yyyy-mm-dd, years 1000 to 9999) reads back
   * as that date, so the next investment is the Tuesday 7 to 13 days after it,
   * whatever today is.
   */
  lemma StoredDateSchedule(d: Date, todayTime: int)
    requires Valid(d) && 1000 <= d.year <= 9999
    ensures exists r ::
      && NextInvestmentDateString(Some(FormatYmd(d)), todayTime) == FormatYmd(FromDayNumber(r))
      && DayNumber(d) + 7 <= r <= DayNumber(d) + 13
      && WeekDay(r) == InvestmentDay
      && (WeekDay(DayNumber(d)) == InvestmentDay ==> r == DayNumber(d) + 7)
  {
    FormatParseRoundTrip(d);
    LastDateSchedule(Some(FormatYmd(d)), todayTime);
  }
}
