/**
 * investmentStrategy.js: the close-over-close down counter (minimum of the
 * two series), the percentage and amount rules with a fixed base amount of
 * 100, the next-investment-date scheduler that works in the UTC frame, and
 * the month-boundary up-month counter.
 */
module InvestmentStrategy {
  import opened Wrappers
  import opened Calendar
  import opened JsNumbers
  import opened JsDates
  import opened Streaks
  import opened DateStrings
  import Utils

  const BaseInvestmentAmount: real := 100.0
  const DefaultWeeklyIncreaseRate: real := 10.0
  const DefaultMonthlyIncreaseRate: real := 10.0

  // ---------------------------------------------------------------------
  // calculateConsecutiveDownWeeks

  /**
   * Counts, in each series from index 1, the periods whose close is below
   * the close of the newer period before them, stopping at the first that is
   * not (NaN compares false); returns the smaller count. `frequency` is not
   * used.
   */
  method CalculateConsecutiveDownWeeks(nasdaqEntries: seq<Period>, sp500Entries: seq<Period>, frequency: string)
    returns (downPeriods: nat)
    ensures downPeriods == Min(CloseDownRun(nasdaqEntries, 1), CloseDownRun(sp500Entries, 1))
    ensures |nasdaqEntries| < 2 || |sp500Entries| < 2 ==> downPeriods == 0
    ensures downPeriods == 0 || (downPeriods <= |nasdaqEntries| - 1 && downPeriods <= |sp500Entries| - 1)
  {
    var nasdaqDownPeriods := 0;
    var sp500DownPeriods := 0;

    var i := 1;
    while i < |nasdaqEntries|
      invariant 1 <= i
      invariant nasdaqDownPeriods == i - 1
      invariant nasdaqDownPeriods + CloseDownRun(nasdaqEntries, i) == CloseDownRun(nasdaqEntries, 1)
    {
      var prevClose := nasdaqEntries[i - 1].close;
      var currClose := nasdaqEntries[i].close;
      if Below(currClose, prevClose) {
        nasdaqDownPeriods := nasdaqDownPeriods + 1;
      } else {
        break;
      }
      i := i + 1;
    }

    i := 1;
    while i < |sp500Entries|
      invariant 1 <= i
      invariant sp500DownPeriods == i - 1
      invariant sp500DownPeriods + CloseDownRun(sp500Entries, i) == CloseDownRun(sp500Entries, 1)
    {
      var prevClose := sp500Entries[i - 1].close;
      var currClose := sp500Entries[i].close;
      if Below(currClose, prevClose) {
        sp500DownPeriods := sp500DownPeriods + 1;
      } else {
        break;
      }
      i := i + 1;
    }

    CloseDownRunMaximal(nasdaqEntries, 1);
    CloseDownRunMaximal(sp500Entries, 1);
    downPeriods := Min(nasdaqDownPeriods, sp500DownPeriods);
  }

  // ---------------------------------------------------------------------
  // calculateInvestmentPercentage and calculateInvestmentAmount

  /** The rate in force: the monthly one for "monthly", the weekly one for any other frequency. */
  function CurrentIncreaseRate(investmentFrequency: string, increaseRate: Option<real>, monthlyIncreaseRate: Option<real>): real {
    if investmentFrequency == "monthly" then monthlyIncreaseRate.GetOr(DefaultMonthlyIncreaseRate)
    else increaseRate.GetOr(DefaultWeeklyIncreaseRate)
  }

  /**
   * The percentage of the base amount to invest: 100 with no down periods,
   * otherwise 100 plus the count times the rate in force. An omitted rate
   * argument (None) takes its default of 10.
   */
  function CalculateInvestmentPercentage(consecutiveDownPeriods: int, investmentFrequency: string,
                                         increaseRate: Option<real>, monthlyIncreaseRate: Option<real>): (pct: real)
    ensures consecutiveDownPeriods <= 0 ==> pct == 100.0
    ensures consecutiveDownPeriods > 0 ==>
              pct == 100.0 + consecutiveDownPeriods as real * CurrentIncreaseRate(investmentFrequency, increaseRate, monthlyIncreaseRate)
    ensures consecutiveDownPeriods > 0 && investmentFrequency == "monthly" ==>
              pct == 100.0 + consecutiveDownPeriods as real * monthlyIncreaseRate.GetOr(10.0)
    ensures consecutiveDownPeriods > 0 && investmentFrequency != "monthly" ==>
              pct == 100.0 + consecutiveDownPeriods as real * increaseRate.GetOr(10.0)
    ensures 0.0 <= CurrentIncreaseRate(investmentFrequency, increaseRate, monthlyIncreaseRate) ==> pct >= 100.0
  {
    var currentIncreaseRate := CurrentIncreaseRate(investmentFrequency, increaseRate, monthlyIncreaseRate);
    if consecutiveDownPeriods <= 0 then 100.0 else 100.0 + consecutiveDownPeriods as real * currentIncreaseRate
  }

  /** More down periods never lower the percentage while the rate in force is not negative. */
  lemma PercentageMonotone(fewer: int, more: int, investmentFrequency: string, increaseRate: Option<real>, monthlyIncreaseRate: Option<real>)
    requires fewer <= more
    requires 0.0 <= CurrentIncreaseRate(investmentFrequency, increaseRate, monthlyIncreaseRate)
    ensures CalculateInvestmentPercentage(fewer, investmentFrequency, increaseRate, monthlyIncreaseRate)
         <= CalculateInvestmentPercentage(more, investmentFrequency, increaseRate, monthlyIncreaseRate)
  {
    var rate := CurrentIncreaseRate(investmentFrequency, increaseRate, monthlyIncreaseRate);
    if fewer > 0 {
      assert (more - fewer) as real * rate >= 0.0;
      assert more as real * rate == fewer as real * rate + (more - fewer) as real * rate;
    }
  }

  /** The amount is the base amount of 100 scaled by the percentage, so it equals the percentage. */
  function CalculateInvestmentAmount(investmentPercentage: real): (amount: real)
    ensures amount == investmentPercentage
  {
    (BaseInvestmentAmount * investmentPercentage) / 100.0
  }

  // ---------------------------------------------------------------------
  // calculateNextInvestmentDate

  /**
   * The day number the scheduler lands on, from the day number of its
   * anchor. "weekly" and any unrecognised frequency step forward to week day
   * investmentDay; "monthly" moves to day investmentDay of the anchor's month,
   * or, when that day is already past, first moves the date one month on
   * (keeping its day of month, which may overflow) and then to day
   * investmentDay of the month it reached; "daily" stays on the anchor.
   */
  function NextInvestmentDay(anchor: int, investmentFrequency: string, investmentDay: int): int {
    var c := FromDayNumber(anchor);
    if investmentFrequency == "monthly" then
      if investmentDay - c.day < 0 then
        var bumped := MakeDay(c.year, c.month, c.day);
        bumped + (investmentDay - FromDayNumber(bumped).day)
      else
        anchor + (investmentDay - c.day)
    else if investmentFrequency == "daily" then
      anchor
    else
      anchor + JsRemainder(investmentDay - WeekDay(anchor) + 7, 7)
  }

  /** The time value the scheduler starts from: the last investment if there is one, else today. */
  function AnchorTime(lastDateTime: Option<int>, todayTime: int): int {
    if lastDateTime.Some? then lastDateTime.value else todayTime
  }

  /** The day number the scheduler starts from: getUTCDate of the anchor time. */
  function AnchorDay(lastDateTime: Option<int>, todayTime: int): int {
    Day(Utils.GetUtcDate(AnchorTime(lastDateTime, todayTime)))
  }

  /**
   * The anchor is the civil date of the last investment (or of today), except
   * that getUTCDate moves a date in the years 0 to 99 to the same month and
   * day of 1900 + y.
   */
  lemma AnchorDate(lastDateTime: Option<int>, todayTime: int, c: Date)
    requires c == DateOfTime(AnchorTime(lastDateTime, todayTime))
    ensures !(0 <= c.year <= 99) ==> FromDayNumber(AnchorDay(lastDateTime, todayTime)) == c
    ensures 0 <= c.year <= 99 && c.day <= DaysInMonth(1900 + c.year, c.month) ==>
      FromDayNumber(AnchorDay(lastDateTime, todayTime)) == Date(1900 + c.year, c.month, c.day)
  {
    Utils.UtcDateDay(AnchorTime(lastDateTime, todayTime), AnchorDay(lastDateTime, todayTime), c);
  }

  /**
   * The scheduler: the anchor is the last investment date when given, else
   * today; it is cut to midnight with getUTCDate and moved by the frequency
   * rule; the result is written as yyyy-mm-dd. `today` is read, not changed.
   * The Date objects the function creates itself are never shared, so each is
   * held here as its time value and its setters as the functions they apply.
   */
  method CalculateNextInvestmentDate(lastDateTime: Option<int>, today: JsDate, investmentFrequency: string, investmentDay: int)
    returns (next: string)
    ensures next == FormatYmd(FromDayNumber(NextInvestmentDay(AnchorDay(lastDateTime, today.time), investmentFrequency, investmentDay)))
    ensures investmentFrequency == "daily" ==> next == FormatYmd(FromDayNumber(AnchorDay(lastDateTime, today.time)))
  {
    ghost var anchor := AnchorDay(lastDateTime, today.time);
    var nextDate := today.time;
    if lastDateTime.Some? {
      nextDate := lastDateTime.value;
    }
    assert nextDate == AnchorTime(lastDateTime, today.time);
    nextDate := Utils.GetUtcDate(nextDate);
    ghost var midnight := nextDate;
    assert Day(midnight) == anchor;

    var daysUntilTargetDay := 0;
    var dayOfWeek;
    if investmentFrequency == "weekly" {
      dayOfWeek := WeekDayFromTime(nextDate);
      daysUntilTargetDay := JsRemainder(investmentDay - dayOfWeek + 7, 7);
      WeeklyStep(anchor, investmentFrequency, investmentDay, midnight, daysUntilTargetDay);
    } else if investmentFrequency == "monthly" {
      var dayOfMonth := DateFromTime(nextDate);
      daysUntilTargetDay := investmentDay - dayOfMonth;
      if daysUntilTargetDay < 0 {
        nextDate := SetMonthValue(nextDate, MonthFromTime(nextDate) + 1);
        dayOfMonth := DateFromTime(nextDate);
        daysUntilTargetDay := investmentDay - dayOfMonth;
        MonthlyBumpStep(anchor, investmentDay, midnight, nextDate, daysUntilTargetDay);
      } else {
        MonthlyStayStep(anchor, investmentDay, midnight, daysUntilTargetDay);
      }
    } else if investmentFrequency == "daily" {
      DailyStep(anchor, investmentFrequency, investmentDay, midnight);
    } else {
      dayOfWeek := WeekDayFromTime(nextDate);
      daysUntilTargetDay := JsRemainder(investmentDay - dayOfWeek + 7, 7);
      WeeklyStep(anchor, investmentFrequency, investmentDay, midnight, daysUntilTargetDay);
    }
    ghost var moved := nextDate;

    nextDate := SetDateValue(nextDate, DateFromTime(nextDate) + daysUntilTargetDay);
    ShiftDaysDate(moved, nextDate, daysUntilTargetDay, NextInvestmentDay(anchor, investmentFrequency, investmentDay));
    var landed := Date(YearFromTime(nextDate), MonthFromTime(nextDate) + 1, DateFromTime(nextDate));
    FieldsOfTime(nextDate, landed);
    next := FormatYmd(landed);
  }

  // Step lemmas for CalculateNextInvestmentDate: each only unfolds one branch
  // of NextInvestmentDay, so that the method's own proof stays small.

  /** The weekly (and default) branch steps from the anchor's midnight to the day NextInvestmentDay names. */
  lemma WeeklyStep(anchor: int, investmentFrequency: string, investmentDay: int, midnight: int, days: int)
    requires Day(midnight) == anchor
    requires investmentFrequency == "weekly" || (investmentFrequency != "monthly" && investmentFrequency != "daily")
    requires days == JsRemainder(investmentDay - WeekDayFromTime(midnight) + 7, 7)
    ensures Day(midnight) + days == NextInvestmentDay(anchor, investmentFrequency, investmentDay)
  {
  }

  /** The daily branch does not move the anchor's midnight. */
  lemma DailyStep(anchor: int, investmentFrequency: string, investmentDay: int, midnight: int)
    requires Day(midnight) == anchor
    requires investmentFrequency == "daily"
    ensures Day(midnight) + 0 == NextInvestmentDay(anchor, investmentFrequency, investmentDay)
  {
  }

  /** The monthly branch when the target day has not passed: the step stays in the anchor's month. */
  lemma MonthlyStayStep(anchor: int, investmentDay: int, midnight: int, days: int)
    requires Day(midnight) == anchor
    requires days == investmentDay - DateFromTime(midnight) && days >= 0
    ensures Day(midnight) + days == NextInvestmentDay(anchor, "monthly", investmentDay)
  {
  }

  /** The monthly branch when the target day has passed: the month is moved first, then the day. */
  lemma MonthlyBumpStep(anchor: int, investmentDay: int, midnight: int, moved: int, days: int)
    requires Day(midnight) == anchor && TimeWithinDay(midnight) == 0
    requires investmentDay - DateFromTime(midnight) < 0
    requires moved == SetMonthValue(midnight, MonthFromTime(midnight) + 1)
    requires days == investmentDay - DateFromTime(moved)
    ensures Day(moved) + days == NextInvestmentDay(anchor, "monthly", investmentDay)
  {
    var c := FromDayNumber(anchor);
    assert DateOfTime(midnight) == c;
    NextMonthValue(midnight, moved);
    MonthlyBranches(anchor, investmentDay, c, NextInvestmentDay(anchor, "monthly", investmentDay));
  }

  /**
   * Only unfolds the monthly branch of NextInvestmentDay for a given anchor
   * date; what that branch means is stated by MonthlySameMonth,
   * MonthlyNextMonth and MonthlyOverflowSkipsMonth.
   */
  lemma MonthlyBranches(anchor: int, investmentDay: int, c: Date, r: int)
    requires c == FromDayNumber(anchor) && r == NextInvestmentDay(anchor, "monthly", investmentDay)
    ensures c.day <= investmentDay ==> r == anchor + investmentDay - c.day
    ensures investmentDay < c.day ==>
              r == MakeDay(c.year, c.month, c.day) + investmentDay - FromDayNumber(MakeDay(c.year, c.month, c.day)).day
  {
  }

  /**
   * Weekly (and any unrecognised frequency): the first day on or after the
   * anchor that falls on week day investmentDay, so 0 to 6 days after it.
   */
  lemma WeeklySchedule(anchor: int, investmentFrequency: string, investmentDay: int)
    requires investmentFrequency != "monthly" && investmentFrequency != "daily"
    requires 0 <= investmentDay <= 6
    ensures var r := NextInvestmentDay(anchor, investmentFrequency, investmentDay);
      anchor <= r <= anchor + 6 && WeekDay(r) == investmentDay &&
      forall d :: anchor <= d < r ==> WeekDay(d) != investmentDay
  {
    DaysUntilWeekDay(anchor, investmentDay);
  }

  /** Monthly, target day not yet passed: day investmentDay of the anchor's own month. */
  lemma MonthlySameMonth(anchor: int, investmentDay: int)
    requires var c := FromDayNumber(anchor); c.day <= investmentDay <= DaysInMonth(c.year, c.month)
    ensures var c := FromDayNumber(anchor);
      FromDayNumber(NextInvestmentDay(anchor, "monthly", investmentDay)) == Date(c.year, c.month, investmentDay)
  {
    var c := FromDayNumber(anchor);
    var r := NextInvestmentDay(anchor, "monthly", investmentDay);
    FromDayNumberRoundTrip(anchor);
    MonthlyBranches(anchor, investmentDay, c, r);
    var first := DayNumber(Date(c.year, c.month, 1));
    DayOfMonth(c.year, c.month, c.day, first + c.day - 1);
    DayOfMonth(c.year, c.month, investmentDay, r);
  }

  /**
   * Monthly, target day already passed, and the anchor's day exists in the
   * next month: day investmentDay of the next month, December rolling into
   * January of the next year.
   */
  lemma MonthlyNextMonth(anchor: int, investmentDay: int)
    requires var c := FromDayNumber(anchor); var nm := NextMonth(c.year, c.month);
      1 <= investmentDay < c.day <= DaysInMonth(nm.0, nm.1)
    ensures var c := FromDayNumber(anchor); var nm := NextMonth(c.year, c.month);
      FromDayNumber(NextInvestmentDay(anchor, "monthly", investmentDay)) == Date(nm.0, nm.1, investmentDay)
  {
    var c := FromDayNumber(anchor);
    var r := NextInvestmentDay(anchor, "monthly", investmentDay);
    var nm := NextMonth(c.year, c.month);
    FromDayNumberRoundTrip(anchor);
    MonthlyBranches(anchor, investmentDay, c, r);
    var bumped := MakeDay(c.year, c.month, c.day);
    var nmFirst := DayNumber(Date(nm.0, nm.1, 1));
    MakeDayNextMonth(c, c.day);
    DayOfMonth(nm.0, nm.1, c.day, bumped);
    DayOfMonth(nm.0, nm.1, investmentDay, r);
  }

  /**
   * As written, monthly: when the anchor's day does not exist in the next
   * month (the 29th to 31st before a shorter month), moving the month first
   * overflows into the month after, and the result lands there: a whole
   * month is skipped.
   */
  lemma MonthlyOverflowSkipsMonth(anchor: int, investmentDay: int)
    requires var c := FromDayNumber(anchor); var nm := NextMonth(c.year, c.month); var nm2 := NextMonth(nm.0, nm.1);
      1 <= investmentDay < c.day && c.day > DaysInMonth(nm.0, nm.1) && investmentDay <= DaysInMonth(nm2.0, nm2.1)
    ensures var c := FromDayNumber(anchor); var nm := NextMonth(c.year, c.month); var nm2 := NextMonth(nm.0, nm.1);
      FromDayNumber(NextInvestmentDay(anchor, "monthly", investmentDay)) == Date(nm2.0, nm2.1, investmentDay)
  {
    var c := FromDayNumber(anchor);
    var r := NextInvestmentDay(anchor, "monthly", investmentDay);
    var nm := NextMonth(c.year, c.month);
    var nm2 := NextMonth(nm.0, nm.1);
    FromDayNumberRoundTrip(anchor);
    MonthlyBranches(anchor, investmentDay, c, r);
    var len := DaysInMonth(nm.0, nm.1);
    var bumped := MakeDay(c.year, c.month, c.day);
    var nmFirst := DayNumber(Date(nm.0, nm.1, 1));
    var nm2First := DayNumber(Date(nm2.0, nm2.1, 1));
    MakeDayNextMonth(c, c.day);
    NextMonthStart(nm.0, nm.1);
    DayOfMonth(nm2.0, nm2.1, c.day - len, bumped);
    DayOfMonth(nm2.0, nm2.1, investmentDay, r);
  }

  /** The skip on a concrete date: from 31 January 2023 with target day 15 the result is 15 March, not 15 February. */
  lemma JanuaryThirtyFirstSkipsFebruary()
    ensures FromDayNumber(NextInvestmentDay(DayNumber(Date(2023, 1, 31)), "monthly", 15)) == Date(2023, 3, 15)
  {
    var anchor := DayNumber(Date(2023, 1, 31));
    DayNumberRoundTrip(Date(2023, 1, 31));
    MonthlyOverflowSkipsMonth(anchor, 15);
  }

  /**
   * The monthly rule as evidently intended: day investmentDay of the
   * anchor's month if not yet passed, else of the next month (setting day and
   * month in one step, so no overflow through the anchor's own day).
   */
  function NextMonthlyDayCorrected(anchor: int, investmentDay: int): int {
    var c := FromDayNumber(anchor);
    if investmentDay - c.day < 0 then MakeDay(c.year, c.month, investmentDay)
    else MakeDay(c.year, c.month - 1, investmentDay)
  }

  /** The corrected rule lands in the next month, after the anchor, whenever the target day has passed. */
  lemma CorrectedMonthlyNextMonth(anchor: int, investmentDay: int)
    requires var c := FromDayNumber(anchor); var nm := NextMonth(c.year, c.month);
      1 <= investmentDay < c.day && investmentDay <= DaysInMonth(nm.0, nm.1)
    ensures var c := FromDayNumber(anchor); var nm := NextMonth(c.year, c.month);
      FromDayNumber(NextMonthlyDayCorrected(anchor, investmentDay)) == Date(nm.0, nm.1, investmentDay)
    ensures NextMonthlyDayCorrected(anchor, investmentDay) > anchor
  {
    var c := FromDayNumber(anchor);
    var r := NextMonthlyDayCorrected(anchor, investmentDay);
    var nm := NextMonth(c.year, c.month);
    FromDayNumberRoundTrip(anchor);
    var nmFirst := DayNumber(Date(nm.0, nm.1, 1));
    assert r == MakeDay(c.year, c.month, investmentDay);
    MakeDayNextMonth(c, investmentDay);
    DayOfMonth(nm.0, nm.1, investmentDay, r);
    var first := DayNumber(Date(c.year, c.month, 1));
    DayOfMonth(c.year, c.month, c.day, first + c.day - 1);
    assert anchor == first + c.day - 1;
    NextMonthStart(c.year, c.month);
    assert nmFirst == first + DaysInMonth(c.year, c.month);
  }

  /** Where the anchor's day exists in the next month, the code as written and the corrected rule agree. */
  lemma CorrectedAgreesWithoutOverflow(anchor: int, investmentDay: int)
    requires var c := FromDayNumber(anchor); var nm := NextMonth(c.year, c.month);
      c.day <= DaysInMonth(nm.0, nm.1)
    ensures NextMonthlyDayCorrected(anchor, investmentDay) == NextInvestmentDay(anchor, "monthly", investmentDay)
  {
    var c := FromDayNumber(anchor);
    var r := NextInvestmentDay(anchor, "monthly", investmentDay);
    var nm := NextMonth(c.year, c.month);
    FromDayNumberRoundTrip(anchor);
    MonthlyBranches(anchor, investmentDay, c, r);
    if investmentDay < c.day {
      var nmFirst := DayNumber(Date(nm.0, nm.1, 1));
      MakeDayNextMonth(c, c.day);
      DayOfMonth(nm.0, nm.1, c.day, MakeDay(c.year, c.month, c.day));
      MakeDayNextMonth(c, investmentDay);
    } else {
      MakeDayOfDate(c, investmentDay);
    }
  }

  // ---------------------------------------------------------------------
  // calculateConsecutiveUpMonths

  /** `new Date(key).getMonth()` of an entry: its month, 0 = January. */
  function MonthOf(p: Period): int {
    p.date.month - 1
  }

  /** Whether entry i starts a different month from entry i + 1 in at least one series. */
  predicate NewMonthAt(a: seq<Period>, b: seq<Period>, i: int)
    requires 0 <= i && i + 1 < |a| && i + 1 < |b|
  {
    MonthOf(a[i]) != MonthOf(a[i + 1]) || MonthOf(b[i]) != MonthOf(b[i + 1])
  }

  /** Every entry opens a new month against the next older one, as in monthly series. */
  predicate DistinctMonths(a: seq<Period>, b: seq<Period>) {
    forall i :: 0 <= i && i + 1 < |a| && i + 1 < |b| ==> NewMonthAt(a, b, i)
  }

  /**
   * What the counter returns on monthly series: no rise at the newest entry
   * gives 0, otherwise one more than the number k of leading entries at which
   * both series rose.
   */
  ghost function UpMonthsOnMonthlySeries(a: seq<Period>, b: seq<Period>): nat {
    var k := PairedUpRun(a, b, 0);
    if k == 0 then 0 else k + 1
  }

  /**
   * The month-boundary up counter. At index 0 it records whether both series
   * rose and counts one if so; at each later index that opens a new month it
   * counts one if both series rose at the previous month's last comparison,
   * and stops otherwise; after the loop it counts one more if the last
   * comparison rose in both and the two newest entries are in different
   * months.
   */
  method CalculateConsecutiveUpMonths(nasdaqEntries: Option<seq<Period>>, sp500Entries: Option<seq<Period>>)
    returns (consecutiveUpMonths: nat)
    ensures nasdaqEntries.None? || sp500Entries.None? ==> consecutiveUpMonths == 0
    ensures nasdaqEntries.Some? && sp500Entries.Some? && (|nasdaqEntries.value| < 2 || |sp500Entries.value| < 2) ==>
              consecutiveUpMonths == 0
    ensures nasdaqEntries.Some? && sp500Entries.Some? ==>
              consecutiveUpMonths <= |nasdaqEntries.value| && consecutiveUpMonths <= |sp500Entries.value|
    ensures nasdaqEntries.Some? && sp500Entries.Some? && |nasdaqEntries.value| >= 2 && |sp500Entries.value| >= 2 &&
            DistinctMonths(nasdaqEntries.value, sp500Entries.value) ==>
              consecutiveUpMonths == UpMonthsOnMonthlySeries(nasdaqEntries.value, sp500Entries.value)
  {
    if nasdaqEntries.None? || sp500Entries.None? {
      return 0;
    }
    var nasdaq, sp500 := nasdaqEntries.value, sp500Entries.value;
    if |nasdaq| < 2 || |sp500| < 2 {
      return 0;
    }

    consecutiveUpMonths := 0;
    var nasdaqUp := true;
    var sp500Up := true;
    var lastMonthNasdaq: Option<int> := None;
    var lastMonthSP500: Option<int> := None;
    ghost var monthly := DistinctMonths(nasdaq, sp500);
    ghost var k := PairedUpRun(nasdaq, sp500, 0);
    PairedUpRunMaximal(nasdaq, sp500, 0);

    for i := 0 to Min(|nasdaq| - 1, |sp500| - 1)
      invariant i == 0 ==> consecutiveUpMonths == 0
      invariant i >= 1 ==> consecutiveUpMonths <= i
      invariant i >= 1 ==> nasdaqUp == Rose(nasdaq, i - 1) && sp500Up == Rose(sp500, i - 1)
      invariant monthly && i >= 1 ==> lastMonthNasdaq == Some(MonthOf(nasdaq[i - 1])) && lastMonthSP500 == Some(MonthOf(sp500[i - 1]))
      invariant monthly && i >= 1 ==> k >= i - 1 && consecutiveUpMonths == (if k == 0 then 0 else i)
    {
      var currentMonthNasdaq := MonthOf(nasdaq[i]);
      var currentMonthSP500 := MonthOf(sp500[i]);

      if i == 0 {
        nasdaqUp := Rose(nasdaq, i);
        sp500Up := Rose(sp500, i);
        if nasdaqUp && sp500Up {
          consecutiveUpMonths := consecutiveUpMonths + 1;
        }
        lastMonthNasdaq := Some(currentMonthNasdaq);
        lastMonthSP500 := Some(currentMonthSP500);
        continue;
      }

      assert monthly ==> NewMonthAt(nasdaq, sp500, i - 1);
      if Some(currentMonthNasdaq) != lastMonthNasdaq || Some(currentMonthSP500) != lastMonthSP500 {
        if nasdaqUp && sp500Up {
          consecutiveUpMonths := consecutiveUpMonths + 1;
        } else {
          assert k > i - 1 ==> PairedUpAt(nasdaq, sp500, i - 1);
          break;
        }
        lastMonthNasdaq := Some(currentMonthNasdaq);
        lastMonthSP500 := Some(currentMonthSP500);
        nasdaqUp := Rose(nasdaq, i);
        sp500Up := Rose(sp500, i);
      } else {
        nasdaqUp := Rose(nasdaq, i);
        sp500Up := Rose(sp500, i);
      }
    }

    assert monthly ==> NewMonthAt(nasdaq, sp500, 0);
    assert k > Min(|nasdaq| - 1, |sp500| - 1) - 1 ==> PairedUpAt(nasdaq, sp500, Min(|nasdaq| - 1, |sp500| - 1) - 1);
    if nasdaqUp && sp500Up {
      if MonthOf(nasdaq[0]) != MonthOf(nasdaq[1]) || MonthOf(sp500[0]) != MonthOf(sp500[1]) {
        consecutiveUpMonths := consecutiveUpMonths + 1;
      }
    }
  }

  /**
   * The double count on concrete monthly closes (March 110, February 100,
   * January 105 in both series): one rise, counted as two.
   */
  lemma UpMonthsCountsOneRiseTwice()
    ensures var s := [Period(Date(2024, 3, 1), Some(100.0), Some(110.0)),
                      Period(Date(2024, 2, 1), Some(100.0), Some(100.0)),
                      Period(Date(2024, 1, 1), Some(100.0), Some(105.0))];
      DistinctMonths(s, s) && PairedUpRun(s, s, 0) == 1 && UpMonthsOnMonthlySeries(s, s) == 2
  {
    var s := [Period(Date(2024, 3, 1), Some(100.0), Some(110.0)),
              Period(Date(2024, 2, 1), Some(100.0), Some(100.0)),
              Period(Date(2024, 1, 1), Some(100.0), Some(105.0))];
    assert PairedUpAt(s, s, 0) && !PairedUpAt(s, s, 1);
    assert PairedUpRun(s, s, 1) == 0;
  }

  /**
   * The up-month count as evidently intended: the number of leading entries
   * at which both series closed above the next older entry.
   */
  function ConsecutiveUpMonthsCorrected(nasdaqEntries: Option<seq<Period>>, sp500Entries: Option<seq<Period>>): (count: nat)
    ensures nasdaqEntries.Some? && sp500Entries.Some? ==>
              && (forall i :: 0 <= i < count ==> PairedUpAt(nasdaqEntries.value, sp500Entries.value, i))
              && !PairedUpAt(nasdaqEntries.value, sp500Entries.value, count)
              && (count == 0 || (count < |nasdaqEntries.value| && count < |sp500Entries.value|))
    ensures nasdaqEntries.None? || sp500Entries.None? ==> count == 0
  {
    if nasdaqEntries.None? || sp500Entries.None? || |nasdaqEntries.value| < 2 || |sp500Entries.value| < 2 then 0
    else
      PairedUpRunMaximal(nasdaqEntries.value, sp500Entries.value, 0);
      PairedUpRun(nasdaqEntries.value, sp500Entries.value, 0)
  }
}
