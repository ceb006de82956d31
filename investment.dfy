/**
 * investment.js: its own percentage rule (falsy rates fall back to 10, no
 * clamp, 100 for any frequency but "weekly" and "monthly"), the identity
 * amount, and a scheduler that keeps the time of day, moves a monthly date
 * by one month and then, once, by another if it is still before today.
 */
module Investment {
  import opened Wrappers
  import opened Calendar
  import opened JsNumbers
  import opened JsDates

  const DefaultWeeklyIncreaseRate: real := 10.0

  /**
   * `rate || defaultWeeklyIncreaseRate`: an absent or NaN rate (None) and a
   * rate of 0 are falsy and give the default; any other rate, negative ones
   * included, is kept.
   */
  function RateOrDefault(rate: Option<real>): (r: real)
    ensures rate.Some? && rate.value != 0.0 ==> r == rate.value
    ensures r == DefaultWeeklyIncreaseRate <==> rate.None? || rate.value == 0.0 || rate.value == DefaultWeeklyIncreaseRate
    ensures r != 0.0
  {
    if rate.Some? && rate.value != 0.0 then rate.value else DefaultWeeklyIncreaseRate
  }

  /**
   * 100 plus the count times the weekly rate for "weekly", times the monthly
   * rate for "monthly", and exactly 100 for any other frequency.
   */
  function CalculateInvestmentPercentage(consecutiveDownWeeks: int, investmentFrequency: string,
                                         increaseRate: Option<real>, monthlyIncreaseRate: Option<real>): (pct: real)
    ensures investmentFrequency != "weekly" && investmentFrequency != "monthly" ==> pct == 100.0
    ensures investmentFrequency == "weekly" ==> pct - 100.0 == consecutiveDownWeeks as real * RateOrDefault(increaseRate)
    ensures investmentFrequency == "monthly" ==> pct - 100.0 == consecutiveDownWeeks as real * RateOrDefault(monthlyIncreaseRate)
    ensures consecutiveDownWeeks == 0 ==> pct == 100.0
  {
    if investmentFrequency == "weekly" then
      100.0 + consecutiveDownWeeks as real * RateOrDefault(increaseRate)
    else if investmentFrequency == "monthly" then
      100.0 + consecutiveDownWeeks as real * RateOrDefault(monthlyIncreaseRate)
    else
      100.0
  }

  /** A missing rate and a rate of 0 both behave as the default rate of 10. */
  lemma FalsyRateIsDefault(n: int, investmentFrequency: string, rate: Option<real>)
    requires rate.None? || rate.value == 0.0
    ensures CalculateInvestmentPercentage(n, investmentFrequency, rate, rate) == CalculateInvestmentPercentage(n, investmentFrequency, Some(10.0), Some(10.0))
    ensures investmentFrequency == "weekly" || investmentFrequency == "monthly" ==>
              CalculateInvestmentPercentage(n, investmentFrequency, rate, rate) == 100.0 + 10.0 * n as real
  {
  }

  /** There is no clamp: with a positive rate in force, a negative count gives less than 100. */
  lemma NegativeCountBelowBaseline(n: int, investmentFrequency: string, increaseRate: Option<real>, monthlyIncreaseRate: Option<real>)
    requires n < 0
    requires investmentFrequency == "weekly" || investmentFrequency == "monthly"
    requires RateOrDefault(if investmentFrequency == "weekly" then increaseRate else monthlyIncreaseRate) > 0.0
    ensures CalculateInvestmentPercentage(n, investmentFrequency, increaseRate, monthlyIncreaseRate) < 100.0
  {
    var rate := RateOrDefault(if investmentFrequency == "weekly" then increaseRate else monthlyIncreaseRate);
    assert n as real * rate < 0.0 by {
      assert (-n) as real * rate > 0.0;
    }
  }

  /** The amount invested is, as yet, the percentage itself. */
  function CalculateInvestmentAmount(investmentPercentage: real): (amount: real)
    ensures amount == investmentPercentage
  {
    investmentPercentage
  }

  // ---------------------------------------------------------------------
  // calculateNextInvestmentDate

  /** The time value the scheduler starts from: the last investment when given, else a copy of today. */
  function AnchorTime(lastInvestmentDate: Option<int>, todayTime: int): int {
    if lastInvestmentDate.Some? then lastInvestmentDate.value else todayTime
  }

  /** Weekly: `setDate(getDate() + (7 + investmentDay - getDay()) % 7)`. */
  function WeeklyTime(t: int, investmentDay: int): int {
    SetDateValue(t, DateFromTime(t) + JsRemainder(7 + investmentDay - WeekDayFromTime(t), 7))
  }

  /** Monthly, first step: `setMonth(getMonth() + 1)` and then `setDate(investmentDay)`. */
  function MonthlyCandidate(t: int, investmentDay: int): int {
    SetDateValue(SetMonthValue(t, MonthFromTime(t) + 1), investmentDay)
  }

  /** Monthly, second step: one more `setMonth(getMonth() + 1)` when the candidate lies before today. */
  function MonthlyBump(candidate: int, todayTime: int): int {
    if candidate < todayTime then SetMonthValue(candidate, MonthFromTime(candidate) + 1) else candidate
  }

  /**
   * The time value the scheduler ends on. Monthly: the candidate, moved one
   * month further once when it lies before today (the time values compare,
   * time of day included).
   */
  function NextInvestmentTime(lastInvestmentDate: Option<int>, todayTime: int, investmentFrequency: string, investmentDay: int): int {
    var t := AnchorTime(lastInvestmentDate, todayTime);
    if investmentFrequency == "weekly" then
      WeeklyTime(t, investmentDay)
    else if investmentFrequency == "monthly" then
      MonthlyBump(MonthlyCandidate(t, investmentDay), todayTime)
    else
      t
  }

  /**
   * The scheduler. `new Date(today)` and `new Date(lastInvestmentDate)` are
   * copies nobody else holds, so the Date being moved is held as its time
   * value and each setter as the function it applies; `today` is only read.
   * The result is the civil date of the final Date; the locale formatting of
   * it is not modelled.
   */
  method CalculateNextInvestmentDate(lastInvestmentDate: Option<int>, today: JsDate, investmentFrequency: string, investmentDay: int)
    returns (next: Date)
    ensures next == DateOfTime(NextInvestmentTime(lastInvestmentDate, today.time, investmentFrequency, investmentDay))
    ensures investmentFrequency != "weekly" && investmentFrequency != "monthly" ==>
              next == DateOfTime(AnchorTime(lastInvestmentDate, today.time))
  {
    var nextDate := today.time;
    if lastInvestmentDate.Some? {
      nextDate := lastInvestmentDate.value;
    }
    ghost var anchor := nextDate;

    if investmentFrequency == "weekly" {
      nextDate := SetDateValue(nextDate, DateFromTime(nextDate) + JsRemainder(7 + investmentDay - WeekDayFromTime(nextDate), 7));
      WeeklyStep(lastInvestmentDate, today.time, investmentDay, anchor, nextDate);
    } else if investmentFrequency == "monthly" {
      nextDate := SetMonthValue(nextDate, MonthFromTime(nextDate) + 1);
      ghost var moved := nextDate;
      nextDate := SetDateValue(nextDate, investmentDay);
      ghost var candidate := nextDate;
      CandidateStep(anchor, investmentDay, moved, candidate);
      if nextDate < today.time {
        nextDate := SetMonthValue(nextDate, MonthFromTime(nextDate) + 1);
        BumpStep(candidate, today.time, nextDate);
      } else {
        KeepStep(candidate, today.time);
      }
      MonthlyStep(lastInvestmentDate, today.time, investmentDay, candidate, nextDate);
    } else {
      OtherStep(lastInvestmentDate, today.time, investmentFrequency, investmentDay, anchor);
    }
    next := Date(YearFromTime(nextDate), MonthFromTime(nextDate) + 1, DateFromTime(nextDate));
    FieldsOfTime(nextDate, next);
  }

  // Step lemmas for CalculateNextInvestmentDate: each only unfolds one branch
  // of NextInvestmentTime, so that the method's own proof stays small.

  /** The weekly setter call is the weekly rule applied to the anchor. */
  lemma WeeklyStep(lastInvestmentDate: Option<int>, todayTime: int, investmentDay: int, anchor: int, r: int)
    requires anchor == AnchorTime(lastInvestmentDate, todayTime)
    requires r == SetDateValue(anchor, DateFromTime(anchor) + JsRemainder(7 + investmentDay - WeekDayFromTime(anchor), 7))
    ensures r == NextInvestmentTime(lastInvestmentDate, todayTime, "weekly", investmentDay)
  {
    assert r == WeeklyTime(anchor, investmentDay);
  }

  /** The two monthly setter calls on the anchor make the candidate. */
  lemma CandidateStep(anchor: int, investmentDay: int, moved: int, candidate: int)
    requires moved == SetMonthValue(anchor, MonthFromTime(anchor) + 1)
    requires candidate == SetDateValue(moved, investmentDay)
    ensures candidate == MonthlyCandidate(anchor, investmentDay)
  {
  }

  /** A candidate before today is moved one month on. */
  lemma BumpStep(candidate: int, todayTime: int, r: int)
    requires candidate < todayTime
    requires r == SetMonthValue(candidate, MonthFromTime(candidate) + 1)
    ensures r == MonthlyBump(candidate, todayTime)
  {
  }

  /** A candidate on or after today is kept. */
  lemma KeepStep(candidate: int, todayTime: int)
    requires candidate >= todayTime
    ensures candidate == MonthlyBump(candidate, todayTime)
  {
  }

  /** The monthly branch ends on the bumped candidate of the anchor. */
  lemma MonthlyStep(lastInvestmentDate: Option<int>, todayTime: int, investmentDay: int, candidate: int, r: int)
    requires candidate == MonthlyCandidate(AnchorTime(lastInvestmentDate, todayTime), investmentDay)
    requires r == MonthlyBump(candidate, todayTime)
    ensures r == NextInvestmentTime(lastInvestmentDate, todayTime, "monthly", investmentDay)
  {
  }

  /** Any other frequency leaves the anchor where it is. */
  lemma OtherStep(lastInvestmentDate: Option<int>, todayTime: int, investmentFrequency: string, investmentDay: int, anchor: int)
    requires anchor == AnchorTime(lastInvestmentDate, todayTime)
    requires investmentFrequency != "weekly" && investmentFrequency != "monthly"
    ensures anchor == NextInvestmentTime(lastInvestmentDate, todayTime, investmentFrequency, investmentDay)
  {
  }

  // ---------------------------------------------------------------------
  // What the steps do to civil dates.

  /** `setDate(dt)` with a day inside the month: same year and month, day dt, same time of day. */
  lemma SetDateInMonth(t: int, after: int, dt: int)
    requires after == SetDateValue(t, dt)
    requires var c := DateOfTime(t); 1 <= dt <= DaysInMonth(c.year, c.month)
    ensures var c := DateOfTime(t); DateOfTime(after) == Date(c.year, c.month, dt)
    ensures TimeWithinDay(after) == TimeWithinDay(t)
  {
    var c := DateOfTime(t);
    var n := MakeDay(c.year, c.month - 1, dt);
    MakeDateParts(n, TimeWithinDay(t));
    MakeDayOfDate(c, dt);
    var first := DayNumber(Date(c.year, c.month, 1));
    DayOfMonth(c.year, c.month, c.day, first + c.day - 1);
    DayOfMonth(c.year, c.month, dt, n);
  }

  /** `setMonth(getMonth() + 1)` when the day exists in the next month: that day of the next month. */
  lemma SetNextMonthFits(t: int, after: int)
    requires after == SetMonthValue(t, MonthFromTime(t) + 1)
    requires var c := DateOfTime(t); var nm := NextMonth(c.year, c.month); c.day <= DaysInMonth(nm.0, nm.1)
    ensures var c := DateOfTime(t); var nm := NextMonth(c.year, c.month); DateOfTime(after) == Date(nm.0, nm.1, c.day)
    ensures TimeWithinDay(after) == TimeWithinDay(t)
  {
    var c := DateOfTime(t);
    var nm := NextMonth(c.year, c.month);
    var n := MakeDay(c.year, c.month, c.day);
    MakeDateParts(n, TimeWithinDay(t));
    MakeDayNextMonth(c, c.day);
    DayOfMonth(nm.0, nm.1, c.day, n);
  }

  /**
   * `setMonth(getMonth() + 1)` when the day does not exist in the next month
   * (the 29th to 31st before a shorter month): it overflows into the month
   * after.
   */
  lemma SetNextMonthOverflows(t: int, after: int)
    requires after == SetMonthValue(t, MonthFromTime(t) + 1)
    requires var c := DateOfTime(t); var nm := NextMonth(c.year, c.month); c.day > DaysInMonth(nm.0, nm.1)
    ensures var c := DateOfTime(t); var nm := NextMonth(c.year, c.month); var nm2 := NextMonth(nm.0, nm.1);
      DateOfTime(after) == Date(nm2.0, nm2.1, c.day - DaysInMonth(nm.0, nm.1))
    ensures TimeWithinDay(after) == TimeWithinDay(t)
  {
    var c := DateOfTime(t);
    var nm := NextMonth(c.year, c.month);
    var nm2 := NextMonth(nm.0, nm.1);
    var n := MakeDay(c.year, c.month, c.day);
    MakeDateParts(n, TimeWithinDay(t));
    MakeDayNextMonth(c, c.day);
    NextMonthStart(nm.0, nm.1);
    DayOfMonth(nm2.0, nm2.1, c.day - DaysInMonth(nm.0, nm.1), n);
  }

  /**
   * Weekly: the first day on or after the anchor that falls on week day
   * investmentDay, 0 to 6 days later, at the anchor's time of day.
   */
  lemma WeeklySchedule(t: int, investmentDay: int, r: int)
    requires 0 <= investmentDay <= 6
    requires r == WeeklyTime(t, investmentDay)
    ensures Day(t) <= Day(r) <= Day(t) + 6
    ensures WeekDayFromTime(r) == investmentDay
    ensures forall d :: Day(t) <= d < Day(r) ==> WeekDay(d) != investmentDay
    ensures TimeWithinDay(r) == TimeWithinDay(t)
  {
    var k := JsRemainder(7 + investmentDay - WeekDayFromTime(t), 7);
    assert r == SetDateValue(t, DateFromTime(t) + k);
    ShiftDays(t, k);
    WeeklyShift(t, investmentDay, k, r);
  }

  /** The weekly step as a shift by k whole days. */
  lemma WeeklyShift(t: int, investmentDay: int, k: int, r: int)
    requires 0 <= investmentDay <= 6
    requires k == JsRemainder(7 + investmentDay - WeekDayFromTime(t), 7)
    requires r == t + k * MsPerDay
    ensures Day(t) <= Day(r) <= Day(t) + 6
    ensures WeekDayFromTime(r) == investmentDay
    ensures forall d :: Day(t) <= d < Day(r) ==> WeekDay(d) != investmentDay
    ensures TimeWithinDay(r) == TimeWithinDay(t)
  {
    DaysUntilWeekDay(Day(t), investmentDay);
    assert k == JsRemainder(investmentDay - WeekDay(Day(t)) + 7, 7);
    AddDays(t, k);
  }

  /**
   * Monthly, first step: where the anchor's day and day investmentDay both
   * exist in the next month, the candidate is day investmentDay of the next
   * month, December rolling into January.
   */
  lemma MonthlyCandidateNextMonth(t: int, investmentDay: int)
    requires var c := DateOfTime(t); var nm := NextMonth(c.year, c.month);
      c.day <= DaysInMonth(nm.0, nm.1) && 1 <= investmentDay <= DaysInMonth(nm.0, nm.1)
    ensures var c := DateOfTime(t); var nm := NextMonth(c.year, c.month);
      DateOfTime(MonthlyCandidate(t, investmentDay)) == Date(nm.0, nm.1, investmentDay)
    ensures TimeWithinDay(MonthlyCandidate(t, investmentDay)) == TimeWithinDay(t)
  {
    var moved := SetMonthValue(t, MonthFromTime(t) + 1);
    SetNextMonthFits(t, moved);
    SetDateInMonth(moved, MonthlyCandidate(t, investmentDay), investmentDay);
  }

  /**
   * As written, monthly, from the 29th to the 31st: moving the month first
   * overflows, so from 31 January 2023 the candidate for day 15 is 15 March
   * and February is skipped.
   */
  lemma MonthlyCandidateSkipsFebruary(t: int, moved: int)
    requires DateOfTime(t) == Date(2023, 1, 31)
    requires moved == SetMonthValue(t, MonthFromTime(t) + 1)
    ensures DateOfTime(moved) == Date(2023, 3, 3)
    ensures DateOfTime(MonthlyCandidate(t, 15)) == Date(2023, 3, 15)
  {
    SetNextMonthOverflows(t, moved);
    CandidateStep(t, 15, moved, SetDateValue(moved, 15));
    SetDateInMonth(moved, MonthlyCandidate(t, 15), 15);
  }

  /**
   * The first monthly step as evidently intended: month and day set in one
   * call, `setMonth(getMonth() + 1, investmentDay)`, so the anchor's own day
   * never overflows.
   */
  function MonthlyCandidateCorrected(t: int, investmentDay: int): int {
    MakeDate(MakeDay(YearFromTime(t), MonthFromTime(t) + 1, investmentDay), TimeWithinDay(t))
  }

  /** The corrected step lands on day investmentDay of the next month, whatever the anchor's day. */
  lemma CorrectedCandidateNextMonth(t: int, investmentDay: int)
    requires var c := DateOfTime(t); var nm := NextMonth(c.year, c.month); 1 <= investmentDay <= DaysInMonth(nm.0, nm.1)
    ensures var c := DateOfTime(t); var nm := NextMonth(c.year, c.month);
      DateOfTime(MonthlyCandidateCorrected(t, investmentDay)) == Date(nm.0, nm.1, investmentDay)
    ensures TimeWithinDay(MonthlyCandidateCorrected(t, investmentDay)) == TimeWithinDay(t)
  {
    var c := DateOfTime(t);
    var nm := NextMonth(c.year, c.month);
    var n := MakeDay(YearFromTime(t), MonthFromTime(t) + 1, investmentDay);
    assert MonthlyCandidateCorrected(t, investmentDay) == MakeDate(n, TimeWithinDay(t));
    assert n == MakeDay(c.year, c.month, investmentDay);
    MakeDateParts(n, TimeWithinDay(t));
    MakeDayNextMonth(c, investmentDay);
    DayOfMonth(nm.0, nm.1, investmentDay, n);
  }

  /**
   * Monthly, second step: a candidate before today moves once more, to the
   * same day of the month after it, and then no further, whatever today is.
   */
  lemma MonthlyBumpedOnce(lastInvestmentDate: Option<int>, todayTime: int, investmentDay: int, candidate: int, r: int)
    requires candidate == MonthlyCandidate(AnchorTime(lastInvestmentDate, todayTime), investmentDay)
    requires r == NextInvestmentTime(lastInvestmentDate, todayTime, "monthly", investmentDay)
    requires var c := DateOfTime(candidate); var nm := NextMonth(c.year, c.month);
      candidate < todayTime && c.day <= DaysInMonth(nm.0, nm.1)
    ensures var c := DateOfTime(candidate); var nm := NextMonth(c.year, c.month);
      DateOfTime(r) == Date(nm.0, nm.1, c.day)
  {
    assert r == SetMonthValue(candidate, MonthFromTime(candidate) + 1);
    SetNextMonthFits(candidate, r);
  }

  /** A candidate on or after today is the result. */
  lemma MonthlyCandidateKept(lastInvestmentDate: Option<int>, todayTime: int, investmentDay: int)
    requires MonthlyCandidate(AnchorTime(lastInvestmentDate, todayTime), investmentDay) >= todayTime
    ensures NextInvestmentTime(lastInvestmentDate, todayTime, "monthly", investmentDay) ==
            MonthlyCandidate(AnchorTime(lastInvestmentDate, todayTime), investmentDay)
    ensures NextInvestmentTime(lastInvestmentDate, todayTime, "monthly", investmentDay) >= todayTime
  {
  }

  /** Midnight of a civil date reads back as that date. */
  lemma DateOfTimeOfDate(d: Date)
    requires Valid(d)
    ensures DateOfTime(TimeOfDate(d)) == d && TimeWithinDay(TimeOfDate(d)) == 0
    ensures Day(TimeOfDate(d)) == DayNumber(d)
  {
    MakeDateParts(DayNumber(d), 0);
    DayNumberRoundTrip(d);
  }

  /** The day number of a time value is the day number of its civil date. */
  lemma DayOfDate(t: int, d: Date)
    requires DateOfTime(t) == d
    ensures Valid(d) && Day(t) == DayNumber(d)
  {
    FromDayNumberRoundTrip(Day(t));
  }

  /** A time value on an earlier day is earlier. */
  lemma EarlierDay(a: int, b: int)
    requires Day(a) < Day(b)
    ensures a < b
  {
  }

  /** The day numbers of 10 February, 10 March and 1 June 2023. */
  lemma SpringDayNumbers()
    ensures DayNumber(Date(2023, 2, 10)) == 19398
    ensures DayNumber(Date(2023, 3, 10)) == 19426
    ensures DayNumber(Date(2023, 6, 1)) == 19509
  {
  }

  /**
   * With no loop, the result can still lie before today: last investment on
   * 10 January 2023, today 1 June 2023, day 10: the candidate 10 February is
   * past, and the single bump gives 10 March, also past.
   */
  lemma MonthlyResultCanBePast(last: int, today: int, r: int)
    requires last == TimeOfDate(Date(2023, 1, 10)) && today == TimeOfDate(Date(2023, 6, 1))
    requires r == NextInvestmentTime(Some(last), today, "monthly", 10)
    ensures DateOfTime(r) == Date(2023, 3, 10) && r < today
  {
    var candidate := MonthlyCandidate(last, 10);
    FebruaryCandidate(last, today, candidate);
    MonthlyBumpedOnce(Some(last), today, 10, candidate, r);
    DayOfDate(r, Date(2023, 3, 10));
    SpringDayNumbers();
    EarlierDay(r, today);
  }

  /** The first step of that example: from 10 January the candidate is 10 February, before 1 June. */
  lemma FebruaryCandidate(last: int, today: int, candidate: int)
    requires last == TimeOfDate(Date(2023, 1, 10)) && today == TimeOfDate(Date(2023, 6, 1))
    requires candidate == MonthlyCandidate(last, 10)
    ensures DateOfTime(candidate) == Date(2023, 2, 10) && candidate < today
  {
    DateOfTimeOfDate(Date(2023, 1, 10));
    DateOfTimeOfDate(Date(2023, 6, 1));
    MonthlyCandidateNextMonth(last, 10);
    DayOfDate(candidate, Date(2023, 2, 10));
    SpringDayNumbers();
    EarlierDay(candidate, today);
  }
}
