/**
 * The proleptic Gregorian calendar used by the JavaScript Date object
 * (ECMA-262, section 21.4.1): civil dates, their day numbers counted from
 * 1970-01-01, the week day of a day number, and the conversions both ways.
 *
 * Day numbers are decomposed into 400-year eras of 146097 days. Inside an era
 * years are counted from March, so that the leap day is the last day of a
 * year: "shifted year" yoe runs from 1 March of year era*400+yoe to the end
 * of February of the next year, and "shifted month" mp is 0 for March up to
 * 11 for February.
 */
module Calendar {

  /** A civil date; month is 1..12, day is 1..DaysInMonth. */
  datatype Date = Date(year: int, month: int, day: int)

  predicate IsLeapYear(y: int) {
    y % 4 == 0 && (y % 100 != 0 || y % 400 == 0)
  }

  function DaysInMonth(y: int, m: int): (n: int)
    requires 1 <= m <= 12
    ensures 28 <= n <= 31
    ensures n == 29 <==> m == 2 && IsLeapYear(y)
  {
    if m == 2 then (if IsLeapYear(y) then 29 else 28)
    else if m == 4 || m == 6 || m == 9 || m == 11 then 30
    else 31
  }

  predicate Valid(d: Date) {
    1 <= d.month <= 12 && 1 <= d.day <= DaysInMonth(d.year, d.month)
  }

  /** Days from 1 March to the first day of shifted month mp. */
  function MonthStart(mp: int): int {
    if mp == 0 then 0 else if mp == 1 then 31 else if mp == 2 then 61 else if mp == 3 then 92
    else if mp == 4 then 122 else if mp == 5 then 153 else if mp == 6 then 184 else if mp == 7 then 214
    else if mp == 8 then 245 else if mp == 9 then 275 else if mp == 10 then 306 else 337
  }

  /** Days from the start of an era to the start of shifted year yoe. */
  function YearStart(yoe: int): int
    requires 0 <= yoe <= 399
  {
    365 * yoe + yoe / 4 - yoe / 100
  }

  /** Whether shifted year yoe ends with a 29 February. */
  predicate ShiftedLeap(yoe: int) {
    (yoe + 1) % 4 == 0 && ((yoe + 1) % 100 != 0 || yoe == 399)
  }

  function ShiftedYearLength(yoe: int): int {
    if ShiftedLeap(yoe) then 366 else 365
  }

  /** Shifted month of a civil month. */
  function ShiftedMonth(m: int): int {
    if m > 2 then m - 3 else m + 9
  }

  /** Civil month of a shifted month. */
  function CivilMonth(mp: int): int {
    if mp < 10 then mp + 3 else mp - 9
  }

  /** The day number of a civil date: days since 1970-01-01 (negative before it). */
  function DayNumber(d: Date): int
    requires Valid(d)
  {
    var y := if d.month <= 2 then d.year - 1 else d.year;
    var era := y / 400;
    var yoe := y % 400;
    era * 146097 + YearStart(yoe) + MonthStart(ShiftedMonth(d.month)) + d.day - 1 - 719468
  }

  /** The shifted year of an era that contains day doe of the era. */
  function YearOfEra(doe: int): (yoe: int)
    requires 0 <= doe < 146097
    ensures 0 <= yoe <= 399
    ensures YearStart(yoe) <= doe < YearStart(yoe) + ShiftedYearLength(yoe)
  {
    var c := if doe == 146096 then 3 else doe / 36524;
    var r := doe - 36524 * c;
    var b := r / 1461;
    var r2 := r - 1461 * b;
    var a := if r2 == 1460 then 3 else r2 / 365;
    assert 0 <= c <= 3 && 0 <= r <= 36524 && (c < 3 ==> r < 36524);
    assert 0 <= b <= 24 && 0 <= r2 <= 1460 && (b == 24 && c < 3 ==> r2 < 1460);
    assert 0 <= a <= 3 && 0 <= r2 - 365 * a <= 365 && (r2 - 365 * a == 365 ==> r2 == 1460);
    YearStartParts(c, b, a);
    100 * c + 4 * b + a
  }

  lemma YearStartParts(c: int, b: int, a: int)
    requires 0 <= c <= 3 && 0 <= b <= 24 && 0 <= a <= 3
    ensures YearStart(100 * c + 4 * b + a) == 36524 * c + 1461 * b + 365 * a
    ensures ShiftedLeap(100 * c + 4 * b + a) <==> a == 3 && (b < 24 || c == 3)
  {
    var y := 100 * c + 4 * b + a;
    assert y / 4 == 25 * c + b;
    assert y / 100 == c;
  }

  /** The shifted month containing day doy of a shifted year. */
  function MonthOfYear(doy: int): (mp: int)
    requires 0 <= doy
    ensures 0 <= mp <= 11
    ensures MonthStart(mp) <= doy
    ensures mp < 11 ==> doy < MonthStart(mp + 1)
  {
    if doy < 31 then 0 else if doy < 61 then 1 else if doy < 92 then 2
    else if doy < 122 then 3 else if doy < 153 then 4 else if doy < 184 then 5
    else if doy < 214 then 6 else if doy < 245 then 7 else if doy < 275 then 8
    else if doy < 306 then 9 else if doy < 337 then 10 else 11
  }

  /** The civil date of a day number. */
  function FromDayNumber(n: int): Date {
    var z := n + 719468;
    var era := z / 146097;
    var doe := z % 146097;
    var yoe := YearOfEra(doe);
    var doy := doe - YearStart(yoe);
    var mp := MonthOfYear(doy);
    var month := CivilMonth(mp);
    Date(era * 400 + yoe + (if month <= 2 then 1 else 0), month, doy - MonthStart(mp) + 1)
  }

  /** Week day of a day number, 0 = Sunday; 1970-01-01 was a Thursday. */
  function WeekDay(n: int): (w: int)
    ensures 0 <= w <= 6
  {
    (n + 4) % 7
  }

  /** Every shifted month but February has the fixed length of its civil month. */
  lemma ShiftedMonthLength(y: int, mp: int)
    requires 0 <= mp < 11
    ensures 1 <= CivilMonth(mp) <= 12 && ShiftedMonth(CivilMonth(mp)) == mp
    ensures MonthStart(mp + 1) - MonthStart(mp) == DaysInMonth(y, CivilMonth(mp))
  {
  }

  /** February closes the shifted year: it has 29 days exactly when the shifted year is leap. */
  lemma FebruaryLength(era: int, yoe: int)
    requires 0 <= yoe <= 399
    ensures ShiftedYearLength(yoe) - MonthStart(11) == DaysInMonth(era * 400 + yoe + 1, 2)
  {
    var k := yoe + 1;
    ModUnique(era * 400 + k, 4, era * 100 + k / 4, k % 4);
    ModUnique(era * 400 + k, 100, era * 4 + k / 100, k % 100);
    ModUnique(era * 400 + k, 400, era + k / 400, k % 400);
  }

  /** Euclidean division is unique: a quotient and remainder in range are a / n and a % n. */
  lemma ModUnique(a: int, n: int, q: int, r: int)
    requires n > 0 && 0 <= r < n && a == q * n + r
    ensures a % n == r && a / n == q
  {
    var d := q - a / n;
    assert d * n == a % n - r;
    if d >= 1 {
      MulAtLeast(d, n);
      assert false;
    } else if d <= -1 {
      MulAtLeast(-d, n);
      assert false;
    }
  }

  lemma MulAtLeast(d: int, n: int)
    requires d >= 1 && n > 0
    ensures d * n >= n
  {
  }

  /** Every day number names a valid date, and converting it back gives the same day number. */
  lemma {:induction false} FromDayNumberRoundTrip(n: int)
    ensures Valid(FromDayNumber(n))
    ensures DayNumber(FromDayNumber(n)) == n
  {
    var z := n + 719468;
    var era := z / 146097;
    var doe := z % 146097;
    var yoe := YearOfEra(doe);
    var doy := doe - YearStart(yoe);
    var mp := MonthOfYear(doy);
    var d := FromDayNumber(n);
    assert d.month == CivilMonth(mp) && d.day == doy - MonthStart(mp) + 1;
    if mp < 11 {
      ShiftedMonthLength(d.year, mp);
    } else {
      FebruaryLength(era, yoe);
    }
    var y := if d.month <= 2 then d.year - 1 else d.year;
    assert y == era * 400 + yoe;
    ModUnique(y, 400, era, yoe);
  }

  /** Days of an era that fall in the first, second, third and fourth position of a four-year block. */
  lemma {:induction false} YearOfEraAt(c: int, b: int, a: int, doy: int)
    requires 0 <= c <= 3 && 0 <= b <= 24 && 0 <= a <= 3
    requires 0 <= doy < ShiftedYearLength(100 * c + 4 * b + a)
    ensures YearStart(100 * c + 4 * b + a) + doy < 146097
    ensures YearOfEra(YearStart(100 * c + 4 * b + a) + doy) == 100 * c + 4 * b + a
  {
    YearStartParts(c, b, a);
    var doe := 36524 * c + 1461 * b + 365 * a + doy;
    var inCentury := 1461 * b + 365 * a + doy;
    assert inCentury <= 36524 && (inCentury == 36524 ==> c == 3);
    var c' := if doe == 146096 then 3 else doe / 36524;
    assert c' == c;
    var r := doe - 36524 * c';
    assert r == inCentury;
    assert 365 * a + doy < 1461;
    assert r / 1461 == b;
    var r2 := r - 1461 * b;
    assert r2 == 365 * a + doy;
    var a' := if r2 == 1460 then 3 else r2 / 365;
    assert a' == a;
  }

  /** Shifted years are laid end to end: a day of an era lies in exactly one of them. */
  lemma {:induction false} YearOfEraUnique(yoe: int, doy: int)
    requires 0 <= yoe <= 399 && 0 <= doy < ShiftedYearLength(yoe)
    ensures YearStart(yoe) + doy < 146097
    ensures YearOfEra(YearStart(yoe) + doy) == yoe
  {
    var c, b, a := yoe / 100, (yoe % 100) / 4, yoe % 4;
    assert yoe == 100 * c + 4 * b + a;
    YearOfEraAt(c, b, a, doy);
  }

  /** A valid date survives the trip through its day number. */
  lemma {:induction false} DayNumberRoundTrip(d: Date)
    requires Valid(d)
    ensures FromDayNumber(DayNumber(d)) == d
  {
    var y := if d.month <= 2 then d.year - 1 else d.year;
    var era := y / 400;
    var yoe := y % 400;
    var mp := ShiftedMonth(d.month);
    if mp < 11 {
      ShiftedMonthLength(d.year, mp);
    } else {
      assert d.year == era * 400 + yoe + 1;
      FebruaryLength(era, yoe);
    }
    assert CivilMonth(mp) == d.month;
    var doy := MonthStart(mp) + d.day - 1;
    assert doy < ShiftedYearLength(yoe);
    assert DayNumber(d) + 719468 == era * 146097 + YearStart(yoe) + doy;
    FromDayNumberOf(DayNumber(d), era, yoe, doy);
  }

  /** FromDayNumber on a day number given by its era, shifted year and day of that year. */
  lemma FromDayNumberOf(n: int, era: int, yoe: int, doy: int)
    requires 0 <= yoe <= 399 && 0 <= doy < ShiftedYearLength(yoe)
    requires n + 719468 == era * 146097 + YearStart(yoe) + doy
    ensures var mp := MonthOfYear(doy);
      FromDayNumber(n) == Date(era * 400 + yoe + (if CivilMonth(mp) <= 2 then 1 else 0), CivilMonth(mp), doy - MonthStart(mp) + 1)
  {
    YearOfEraUnique(yoe, doy);
    ModUnique(n + 719468, 146097, era, YearStart(yoe) + doy);
  }

  /** Day `date` of a month is date - 1 days after its first, and that day number reads back as the date. */
  lemma DayOfMonth(y: int, m: int, date: int, n: int)
    requires 1 <= m <= 12 && 1 <= date <= DaysInMonth(y, m)
    requires n == DayNumber(Date(y, m, 1)) + date - 1
    ensures DayNumber(Date(y, m, date)) == n
    ensures FromDayNumber(n) == Date(y, m, date)
  {
    DayNumberRoundTrip(Date(y, m, date));
  }

  /** The civil month after (y, m). */
  function NextMonth(y: int, m: int): (r: (int, int))
    requires 1 <= m <= 12
    ensures 1 <= r.1 <= 12
  {
    if m == 12 then (y + 1, 1) else (y, m + 1)
  }

  /** Consecutive shifted years of an era follow each other without gap. */
  lemma {:induction false} YearStartStep(yoe: int)
    requires 0 <= yoe < 399
    ensures YearStart(yoe + 1) == YearStart(yoe) + ShiftedYearLength(yoe)
  {
    var c, b, a := yoe / 100, (yoe % 100) / 4, yoe % 4;
    assert yoe == 100 * c + 4 * b + a;
    YearStartParts(c, b, a);
    if a < 3 {
      YearStartParts(c, b, a + 1);
    } else if b < 24 {
      YearStartParts(c, b + 1, 0);
    } else {
      YearStartParts(c + 1, 0, 0);
    }
  }

  /** The first day of the next month comes DaysInMonth days after the first day of this one. */
  lemma NextMonthStart(y: int, m: int)
    requires 1 <= m <= 12
    ensures DayNumber(Date(NextMonth(y, m).0, NextMonth(y, m).1, 1)) == DayNumber(Date(y, m, 1)) + DaysInMonth(y, m)
  {
    if m != 2 {
      NextMonthStartInShiftedYear(y, m);
    } else {
      MarchStart(y);
    }
  }

  /** Months other than February are followed by a month of the same shifted year. */
  lemma NextMonthStartInShiftedYear(y: int, m: int)
    requires 1 <= m <= 12 && m != 2
    ensures DayNumber(Date(NextMonth(y, m).0, NextMonth(y, m).1, 1)) == DayNumber(Date(y, m, 1)) + DaysInMonth(y, m)
  {
    ShiftedMonthLength(y, ShiftedMonth(m));
  }

  /** February ends the shifted year; 1 March starts the next one. */
  lemma {:induction false} MarchStart(y: int)
    ensures DayNumber(Date(y, 3, 1)) == DayNumber(Date(y, 2, 1)) + DaysInMonth(y, 2)
  {
    var y' := y - 1;
    var era := y' / 400;
    var yoe := y' % 400;
    FebruaryLength(era, yoe);
    assert y == era * 400 + yoe + 1;
    if yoe < 399 {
      YearStartStep(yoe);
      ModUnique(y, 400, era, yoe + 1);
    } else {
      YearStartParts(3, 24, 3);
      ModUnique(y, 400, era + 1, 0);
    }
  }
}
