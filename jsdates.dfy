/**
 * The part of the JavaScript Date object (ECMA-262, section 21.4) that the
 * schedulers use: a Date holds a time value, milliseconds since 1970-01-01
 * 00:00 UTC; getters read its civil fields; setDate and setMonth rebuild it
 * with MakeDay, which normalises an out-of-range month or day by carrying
 * into the next months and years.
 *
 * The local time zone is taken to be UTC, so getDate/getUTCDate,
 * setDate/setUTCDate and so on coincide.
 */
module JsDates {
  import opened Calendar
  import opened JsNumbers

  const MsPerDay: int := 86400000

  /** The day number of a time value. */
  function Day(t: int): int {
    t / MsPerDay
  }

  function TimeWithinDay(t: int): (ms: int)
    ensures 0 <= ms < MsPerDay
  {
    t % MsPerDay
  }

  function MakeDate(day: int, time: int): int {
    day * MsPerDay + time
  }

  /** The time value of midnight UTC at the start of a civil date. */
  function TimeOfDate(d: Date): int
    requires Valid(d)
  {
    MakeDate(DayNumber(d), 0)
  }

  /** The civil date of a time value. */
  function DateOfTime(t: int): (d: Date)
    ensures Valid(d)
  {
    FromDayNumberRoundTrip(Day(t));
    FromDayNumber(Day(t))
  }

  function YearFromTime(t: int): int {
    DateOfTime(t).year
  }

  /** Month of a time value, 0 = January, as getMonth returns it. */
  function MonthFromTime(t: int): (m: int)
    ensures 0 <= m <= 11
  {
    DateOfTime(t).month - 1
  }

  function DateFromTime(t: int): (dt: int)
    ensures 1 <= dt <= 31
  {
    DateOfTime(t).day
  }

  /** Week day of a time value, 0 = Sunday, as getDay returns it. */
  function WeekDayFromTime(t: int): (w: int)
    ensures 0 <= w <= 6
  {
    WeekDay(Day(t))
  }

  /**
   * MakeDay: the day number of day `date` of month `month` (0-based) of
   * `year`, where a month outside 0..11 carries into the year and a day
   * outside the month carries into the following or preceding months.
   */
  function MakeDay(year: int, month: int, date: int): int {
    var ym := year + month / 12;
    var mn := month % 12;
    DayNumber(Date(ym, mn + 1, 1)) + date - 1
  }

  /** When the day lies inside the (normalised) month, MakeDay names exactly that civil date. */
  lemma {:induction false} MakeDayInMonth(year: int, month: int, date: int)
    requires 1 <= date <= DaysInMonth(year + month / 12, month % 12 + 1)
    ensures FromDayNumber(MakeDay(year, month, date)) == Date(year + month / 12, month % 12 + 1, date)
  {
    var d := Date(year + month / 12, month % 12 + 1, date);
    DayNumberRoundTrip(d);
    assert DayNumber(d) == MakeDay(year, month, date);
  }

  /** The year, 1-based month and day the getters return make up the civil date of the time value. */
  lemma FieldsOfTime(t: int, d: Date)
    requires d == Date(YearFromTime(t), MonthFromTime(t) + 1, DateFromTime(t))
    ensures d == DateOfTime(t)
  {
  }

  /** MakeDay on the 0-based month of a valid date counts days from that date. */
  lemma MakeDayOfDate(d: Date, date: int)
    requires Valid(d)
    ensures MakeDay(d.year, d.month - 1, date) == DayNumber(d) + date - d.day
  {
    assert (d.month - 1) / 12 == 0 && (d.month - 1) % 12 == d.month - 1;
  }

  /** MakeDay one month after the 0-based month of a valid date counts from the first of the next month. */
  lemma MakeDayNextMonth(d: Date, date: int)
    requires Valid(d)
    ensures var nm := NextMonth(d.year, d.month);
      MakeDay(d.year, d.month, date) == DayNumber(Date(nm.0, nm.1, 1)) + date - 1
  {
    var nm := NextMonth(d.year, d.month);
    assert d.year + d.month / 12 == nm.0 && d.month % 12 + 1 == nm.1;
  }

  /**
   * MakeFullYear: the year the field-by-field constructor `new Date(y, m, d)`
   * uses; a year from 0 to 99 is read as 1900 + y.
   */
  function MakeFullYear(y: int): (r: int)
    ensures 0 <= y <= 99 ==> 1900 <= r <= 1999 && r % 100 == y
    ensures !(0 <= y <= 99) ==> r == y
  {
    if 0 <= y <= 99 then 1900 + y else y
  }

  /** The new time value of `date.setDate(dt)`: same year, month and time of day. */
  function SetDateValue(t: int, dt: int): int {
    MakeDate(MakeDay(YearFromTime(t), MonthFromTime(t), dt), TimeWithinDay(t))
  }

  /** The new time value of `date.setMonth(m)`: same year, day of month and time of day. */
  function SetMonthValue(t: int, m: int): int {
    MakeDate(MakeDay(YearFromTime(t), m, DateFromTime(t)), TimeWithinDay(t))
  }

  lemma MakeDateParts(day: int, ms: int)
    requires 0 <= ms < MsPerDay
    ensures Day(MakeDate(day, ms)) == day && TimeWithinDay(MakeDate(day, ms)) == ms
  {
  }

  /** Adding k whole days to a time value moves its day number by k and keeps its time of day. */
  lemma AddDays(t: int, k: int)
    ensures Day(t + k * MsPerDay) == Day(t) + k
    ensures TimeWithinDay(t + k * MsPerDay) == TimeWithinDay(t)
  {
    assert t + k * MsPerDay == MakeDate(Day(t) + k, TimeWithinDay(t));
    MakeDateParts(Day(t) + k, TimeWithinDay(t));
  }

  /** `d.setDate(d.getDate() + k)` moves d by exactly k whole days, across month and year ends. */
  lemma {:induction false} ShiftDays(t: int, k: int)
    ensures SetDateValue(t, DateFromTime(t) + k) == t + k * MsPerDay
  {
    MakeDayOfTime(t, DateFromTime(t) + k);
    assert MakeDay(YearFromTime(t), MonthFromTime(t), DateFromTime(t) + k) == Day(t) + k;
    assert t + k * MsPerDay == MakeDate(Day(t) + k, TimeWithinDay(t));
  }

  /** MakeDay on the year and month of a time value counts days from its own day. */
  lemma MakeDayOfTime(t: int, date: int)
    ensures MakeDay(YearFromTime(t), MonthFromTime(t), date) == Day(t) + date - DateFromTime(t)
  {
    var c := DateOfTime(t);
    FromDayNumberRoundTrip(Day(t));
    MakeDayOfDate(c, date);
  }

  /** The civil date `d.setDate(d.getDate() + k)` lands on: k days after d's own. */
  lemma ShiftDaysDate(before: int, after: int, k: int, target: int)
    requires after == SetDateValue(before, DateFromTime(before) + k)
    requires target == Day(before) + k
    ensures Day(after) == target
    ensures DateOfTime(after) == FromDayNumber(target)
  {
    ShiftDays(before, k);
    AddDays(before, k);
  }

  /** `d.setMonth(d.getMonth() + 1)` at midnight: midnight of MakeDay one month on, same day of month. */
  lemma NextMonthValue(before: int, after: int)
    requires TimeWithinDay(before) == 0
    requires after == SetMonthValue(before, MonthFromTime(before) + 1)
    ensures var c := DateOfTime(before); Day(after) == MakeDay(c.year, c.month, c.day)
    ensures TimeWithinDay(after) == 0
  {
    var c := DateOfTime(before);
    MakeDateParts(MakeDay(c.year, c.month, c.day), 0);
  }

  /** Advancing the month by one moves the day number by the length of the month left behind. */
  lemma {:induction false} MonthStep(year: int, month: int, date: int)
    ensures var ym, mn := year + month / 12, month % 12;
      MakeDay(year, month + 1, date) == MakeDay(year, month, date) + DaysInMonth(ym, mn + 1)
  {
    var ym, mn := year + month / 12, month % 12;
    NextMonthStart(ym, mn + 1);
    if mn == 11 {
      assert (month + 1) / 12 == month / 12 + 1 && (month + 1) % 12 == 0;
    } else {
      assert (month + 1) / 12 == month / 12 && (month + 1) % 12 == mn + 1;
    }
  }

  /**
   * `(target - weekDay + 7) % 7`, the step the weekly schedulers take from day
   * n: for a target week day 0..6 it reaches the first day on or after n that
   * falls on the target.
   */
  lemma {:induction false} DaysUntilWeekDay(n: int, target: int)
    requires 0 <= target <= 6
    ensures var k := JsRemainder(target - WeekDay(n) + 7, 7);
      0 <= k <= 6 && WeekDay(n + k) == target &&
      forall d :: n <= d < n + k ==> WeekDay(d) != target
  {
    var w := WeekDay(n);
    var k := JsRemainder(target - w + 7, 7);
    assert k == (target - w + 7) % 7;
    assert (n + 4) % 7 == w;
    forall d | n <= d < n + k
      ensures WeekDay(d) != target
    {
      assert WeekDay(d) == (w + (d - n)) % 7;
    }
  }

  /** A mutable Date object. */
  class JsDate {
    var time: int

    /** `new Date(t)`, also the copy `new Date(other)`. */
    constructor (t: int)
      ensures time == t
    {
      time := t;
    }

    /** `getFullYear()` (and `getUTCFullYear()`). */
    function GetFullYear(): int
      reads this
    {
      YearFromTime(time)
    }

    /** `getMonth()` (and `getUTCMonth()`), 0 = January. */
    function GetMonth(): (m: int)
      reads this
      ensures 0 <= m <= 11
    {
      MonthFromTime(time)
    }

    /** `getDate()` (and `getUTCDate()`), the day of the month. */
    function GetDate(): (dt: int)
      reads this
      ensures 1 <= dt <= 31
    {
      DateFromTime(time)
    }

    /** `getDay()` (and `getUTCDay()`), 0 = Sunday. */
    function GetDay(): (w: int)
      reads this
      ensures 0 <= w <= 6
    {
      WeekDayFromTime(time)
    }

    /** `setDate(dt)` (and `setUTCDate(dt)`). */
    method SetDate(dt: int)
      modifies this
      ensures time == SetDateValue(old(time), dt)
    {
      time := SetDateValue(time, dt);
    }
  }
}
