# ETFPal dollar-cost-averaging core in Dafny

ETFPal is a browser extension that suggests how much to invest in two ETFs
(a Nasdaq-100 tracker and an S&P 500 tracker) and when. Its signal and
scheduling logic exists in several divergent copies, one per source file,
and this project models each copy as written, one Dafny module per file:

- `Utils` (utils.js): `getUTCDate` and the candle-body down counter
  (periods that closed below their own open; a NaN price ends the scan),
  the smaller of the two series' counts.
- `Data` (data.js): the simple up counter, in which both series closed
  above the entry before.
- `InvestmentStrategy` (investmentStrategy.js) has four parts:
  - the close-over-close down counter, taking the minimum of the two counts;
  - the percentage rule with weekly and monthly rates, and the amount on a
    base of 100;
  - the weekly / monthly / daily scheduler in the UTC frame, which returns a
    `yyyy-mm-dd` string;
  - the month-boundary up-month counter.
- `Investment` (investment.js) has three parts:
  - a second percentage rule, in which a falsy rate becomes 10 and there is
    no clamp;
  - the identity amount;
  - a scheduler that moves a monthly date once, and a second time only when
    it is still before today.
- `Popup` (popup.js) has four parts:
  - the close-over-close down counter, taking the maximum of the two counts;
  - an integer percentage of 10 points per down day;
  - the amount expression;
  - the Tuesday scheduler. It moves a week on from the last investment, then
    forward to the next Tuesday. It moves the caller's own `today` Date when
    there is no last investment.

Shared modules hold the semantics the copies rely on:

- `Calendar`: proleptic Gregorian civil dates and their day numbers, with
  round trips both ways.
- `JsDates`: Date time values as in section 21.4 of ECMA-262:
  - `MakeDay` normalisation, which carries an out-of-range month or day into
    the next months and years;
  - getters and the `setDate`/`setMonth` value functions;
  - a mutable `JsDate` class.
- `JsNumbers`: JavaScript's truncating `%`, `Math.min` and `Math.max`.
- `Streaks`: price series stored newest first, where a parsed price is
  `Option<real>` and `None` stands for NaN. It also holds the run functions
  every counter is proved equal to, with lemmas that each run is the maximal
  qualifying prefix and the only one.
- `DateStrings`: the zero-padded `yyyy-mm-dd` string, and the ISO date-only
  reading that `new Date(s)` applies to it.

Each loop counter is a method with loop invariants, proved equal to its run
function; the exception is `InvestmentStrategy.CalculateConsecutiveUpMonths`,
whose exact count is stated only on series with one entry per month (see
"## Left out"). Each scheduler is a method proved equal to a function of its
inputs. Lemmas then state what that function guarantees: the week day
reached, the distance from the anchor, and the month and day landed on.

## Model

| member | source | states |
|---|---|---|
| `Utils.GetUtcDate` | utils.js:14-16 | The result is always at midnight. Outside the years 0 to 99 it is midnight of the same UTC calendar day: same day number, at most one day before the input. |
| `Utils.CenturyZeroYear` | utils.js:15 | In the years 0 to 99, where `new Date(y, m, d)` reads the year as 1900 + y, the result is the same month and day of 1900 + y whenever that day exists. |
| `Utils.LeapDayOfYearZero` | utils.js:15 | The one date in those years that 1900 + y lacks, 29 February of year 0, becomes 1 March 1900. |
| `JsDates.MakeFullYear` | utils.js:15 | The year `new Date(y, m, d)` uses: a year from 0 to 99 becomes the year of the 1900s with the same last two digits; every other year is kept. |
| `Utils.CalculateConsecutiveDownWeeks` | utils.js:25-75 | 0 when either series is missing or has fewer than 2 entries. Otherwise it is the smaller of the two maximal red-candle runs from index 1, and at most each length minus 1. |
| `Utils.CurrentPeriodIgnored` | utils.js:40-57 | Replacing index 0 of either series by any period leaves the count unchanged, because the scan starts at index 1. |
| `Utils.NonNumericCapsCount` | utils.js:44-64 | A NaN open or close at an index j ≥ 1 of either series caps the result at j - 1, so that period is never counted. A NaN at index 0 caps nothing, since the scan starts at 1. |
| `Streaks.CandleDownRunMaximal` | utils.js:40-54 | Every period in the candle run closed below its own open with both prices numeric. The period just after the run does not qualify, and the run stays inside the series. |
| `Streaks.CandleDownRunUnique` | utils.js:57-71 | Any count k whose periods all qualify and whose next period does not is the run's length. |
| `Streaks.NonNumericStopsCandleRun` | utils.js:61-64 | A non-numeric period at index j ends the run from i before j. |
| `Streaks.CandleDownRunIgnoresPrefix` | utils.js:40-47 | The run from i depends only on the periods at i and later; each period is judged on its own candle. |
| `Streaks.CloseDownRunMaximal` | investmentStrategy.js:23-31 | In the close-over-close run, every close is below the close of the newer period before it. The next index fails that test, and the run stays inside the series. |
| `Streaks.CloseDownRunUnique` | investmentStrategy.js:33-41 | Any k with every index qualifying and the next failing is the run length. |
| `Streaks.StrictlyFallingRun` | popup.js:145-153 | A series in which every close is below the one before counts length - 1. |
| `Streaks.PairedUpRunMaximal` | data.js:15-29 | In the paired up run, both series closed above the next older entry at every index. The first index after the run fails in one of them, and the run stays below the shorter length minus 1. |
| `Streaks.PairedUpRunUnique` | data.js:22-28 | Any k with every index rising in both and index k not is the run length. |
| `Data.CalculateConsecutiveUpMonths` | data.js:4-32 | 0 when either series is missing or short. Otherwise it is the maximal prefix in which both series rose, and at most the Nasdaq length minus 1. The S&P series is required to be at least as long as the Nasdaq one, because the loop is bounded by the Nasdaq length only. |
| `InvestmentStrategy.CalculateConsecutiveDownWeeks` | investmentStrategy.js:14-45 | The minimum of the two maximal close-over-close runs from index 1, whatever the frequency. It is 0 when a series has fewer than 2 entries, and a positive result is at most each length minus 1. |
| `InvestmentStrategy.CalculateInvestmentPercentage` | investmentStrategy.js:54-69 | Exactly 100 for a count of 0 or less. Otherwise it is 100 plus count times the monthly rate if the frequency is "monthly" and the weekly rate otherwise, where an omitted rate is 10. It is at least 100 when the rate in force is non-negative. |
| `InvestmentStrategy.PercentageMonotone` | investmentStrategy.js:65-68 | With a non-negative rate, more down periods never give a smaller percentage. |
| `InvestmentStrategy.CalculateInvestmentAmount` | investmentStrategy.js:76-78 | With the fixed base of 100, the amount equals the percentage. |
| `InvestmentStrategy.CalculateNextInvestmentDate` | investmentStrategy.js:88-134 | The result is the `yyyy-mm-dd` string of the day the frequency rule reaches from `getUTCDate` of the anchor. The anchor is the last date if given and today otherwise. For "daily" the result is the date of that midnight. `today` is not changed. |
| `InvestmentStrategy.AnchorDate` | investmentStrategy.js:96-104 | The day the scheduler starts from is the anchor's own civil date, except that a date in the years 0 to 99 moves to the same month and day of 1900 + y, whenever that day exists in 1900 + y. |
| `InvestmentStrategy.WeeklySchedule` | investmentStrategy.js:108-129 | For "weekly" and every unrecognised frequency, and an investmentDay from 0 to 6, the result falls on week day investmentDay, 0 to 6 days on or after the anchor, and is the first such day. |
| `InvestmentStrategy.MonthlySameMonth` | investmentStrategy.js:113-116 | When investmentDay is at or after the anchor's day and exists in that month, the result is day investmentDay of the anchor's month. |
| `InvestmentStrategy.MonthlyNextMonth` | investmentStrategy.js:116-129 | When investmentDay is before the anchor's day and the anchor's day exists in the next month, the result is day investmentDay of the next month, December rolling into January. |
| `InvestmentStrategy.MonthlyOverflowSkipsMonth` | investmentStrategy.js:116-120 | When the anchor's day does not exist in the next month, `setUTCMonth` overflows, and the result is day investmentDay of the month after next. |
| `InvestmentStrategy.JanuaryThirtyFirstSkipsFebruary` | investmentStrategy.js:116-120 | From 31 January 2023 with investment day 15, the result is 15 March 2023. |
| `InvestmentStrategy.CorrectedMonthlyNextMonth` | investmentStrategy.js:116-120 | With month and day set together, a passed investment day lands on that day of the next month, after the anchor, whenever investmentDay exists in the next month. |
| `InvestmentStrategy.CorrectedAgreesWithoutOverflow` | investmentStrategy.js:113-121 | The corrected rule and the written one agree whenever the anchor's day exists in the next month. |
| `InvestmentStrategy.CalculateConsecutiveUpMonths` | investmentStrategy.js:142-216 | 0 when either series is missing or has fewer than 2 entries, and never more than either series' length. On series with one entry per month, it returns the paired up run plus one when that run is positive. |
| `InvestmentStrategy.UpMonthsCountsOneRiseTwice` | investmentStrategy.js:172-213 | On monthly closes of 110, 100 and 105 (March, February, January), only one month rose, yet the counter returns 2. |
| `InvestmentStrategy.ConsecutiveUpMonthsCorrected` | investmentStrategy.js:172-199 | The intended count is the maximal prefix: both series rose at every index in it, and at the index after it they did not both rise. It is 0 when a series is missing. |
| `DateStrings.FormatYmd` | investmentStrategy.js:131-133 | For a month from 1 to 12 and a day from 1 to 31, the result string is the year as a decimal numeral, a dash, the month as two digits that read as the month, a dash, and the day as two digits that read as the day. The template at popup.js:296-298 is the same. |
| `DateStrings.FormatParseRoundTrip` | investmentStrategy.js:131-133 | For years 1000 to 9999, the zero-padded `yyyy-mm-dd` string is 10 characters and reads back as the same date. |
| `DateStrings.TwoDigitsRoundTrip` | popup.js:296-298 | A month or day padded with `padStart(2, "0")` is two digits that denote it. |
| `DateStrings.ParseIsoDate` | popup.js:288 | A string read as a date names a valid civil date with a year below 10000. |
| `Calendar.DayNumberRoundTrip` | utils.js:15 | A valid civil date converts to a day number and back to itself. |
| `Calendar.FromDayNumberRoundTrip` | investmentStrategy.js:131-133 | Every day number has a valid civil date that converts back to it. |
| `JsDates.ShiftDays` | investmentStrategy.js:129 | `setDate(getDate() + k)` moves a time value by exactly k whole days, across month and year ends. |
| `JsDates.DaysUntilWeekDay` | investmentStrategy.js:111 | `(target - getDay() + 7) % 7` is 0 to 6 and reaches the first day on or after the start that falls on the target week day. |
| `JsDates.NextMonthValue` | investmentStrategy.js:117 | `setUTCMonth(getUTCMonth() + 1)` at midnight lands at midnight of MakeDay one month on, with the same day-of-month argument to MakeDay (so a day the next month lacks overflows into the month after). |
| `JsDates.MonthStep` | investmentStrategy.js:117 | Advancing the month by one moves MakeDay by the length of the month left behind. |
| `JsDates.JsDate.SetDate` | popup.js:294 | `setDate(dt)` replaces the Date's time value with MakeDay normalisation of day dt, and changes nothing else. |
| `JsNumbers.JsRemainder` | popup.js:293 | JavaScript `%` truncates toward zero and keeps the sign of the dividend. A non-negative operand gives Dafny's remainder in [0, n), and a negative one gives minus the remainder of its magnitude, in (-n, 0]. |
| `Investment.RateOrDefault` | investment.js:14 | A truthy rate (present and not 0) is kept as it is. The rate in force is 10 exactly when the rate is absent, NaN, 0 or 10 itself, and it is never 0. |
| `Investment.CalculateInvestmentPercentage` | investment.js:6-24 | "weekly" gives 100 plus count times the weekly rate, and "monthly" gives 100 plus count times the monthly rate. Any other frequency gives exactly 100, and a count of 0 gives 100. |
| `Investment.FalsyRateIsDefault` | investment.js:14-19 | A missing rate and a rate of 0 behave exactly as a rate of 10. |
| `Investment.NegativeCountBelowBaseline` | investment.js:12-20 | There is no clamp: a negative count with a positive rate gives less than 100. |
| `Investment.CalculateInvestmentAmount` | investment.js:26-28 | The amount is the percentage. |
| `Investment.CalculateNextInvestmentDate` | investment.js:30-61 | The result is the civil date of the anchor moved by the weekly or monthly rule, where the anchor is the last investment if given and today otherwise. Any other frequency gives the anchor's own date. `today` is not changed. |
| `Investment.WeeklySchedule` | investment.js:41-44 | Weekly, for an investmentDay from 0 to 6: the first day on week day investmentDay, 0 to 6 days on or after the anchor, keeping the time of day. |
| `Investment.SetNextMonthFits` | investment.js:46 | `setMonth(getMonth() + 1)` on a day that exists in the next month gives that day of the next month, at the same time of day. |
| `Investment.SetNextMonthOverflows` | investment.js:46 | On a day past the end of the next month, it overflows into the month after, by the excess days. |
| `Investment.SetDateInMonth` | investment.js:47 | `setDate(investmentDay)` with a day inside the month keeps the year, month and time of day. |
| `Investment.MonthlyCandidateNextMonth` | investment.js:45-47 | When the anchor's day and investmentDay both exist in the next month, the candidate is day investmentDay of the next month, at the same time of day. |
| `Investment.MonthlyBumpedOnce` | investment.js:49-51 | A candidate before today moves exactly once more, whatever today is. When the candidate's day exists in the following month, the result is that same day of the following month. |
| `Investment.MonthlyCandidateKept` | investment.js:49-51 | A candidate on or after today is the result, and it is not before today. |
| `Investment.MonthlyResultCanBePast` | investment.js:45-51 | With no loop, the result can lie in the past. From a last investment on 10 January 2023 with today 1 June 2023 and day 10, the result is 10 March 2023, before today. |
| `Investment.MonthlyCandidateSkipsFebruary` | investment.js:46-47 | From 31 January 2023, `setMonth` gives 3 March, so the candidate for day 15 is 15 March and February is skipped. |
| `Investment.CorrectedCandidateNextMonth` | investment.js:46-47 | Setting month and day together lands on day investmentDay of the next month, whatever the anchor's day, when investmentDay exists in that month. The time of day is kept. |
| `Popup.CalculateConsecutiveDownDays` | popup.js:141-165 | The larger of the two maximal close-over-close runs from index 1. It is at least each run, 0 when both series have fewer than 2 entries, and when positive at most the longer length minus 1. |
| `Popup.CalculateInvestmentPercentage` | popup.js:239-244 | Never below 100. It is exactly 100 if and only if the count is 0 or less, and otherwise exceeds 100 by exactly ten points per down day. |
| `Popup.PercentageStep` | popup.js:243 | One more down day never lowers the percentage, and adds exactly 10 once the count is positive. |
| `Popup.PercentageMonotone` | popup.js:239-244 | More down days never give a smaller percentage. |
| `Popup.InvestmentAmount` | popup.js:253 | `(100 * pct) / 100` equals the percentage. |
| `Popup.AmountAtLeastBase` | popup.js:251-253 | Whatever the count, at least the base amount of 100 is invested. |
| `Popup.CalculateNextInvestmentDate` | popup.js:284-299 | The result is the string of the first Tuesday on or after the start day. The start day is today, or a week after the last date. An unreadable date gives "NaN-NaN-NaN". With no last date, the caller's `today` is moved to that Tuesday; otherwise it is unchanged. |
| `Popup.TuesdayOnOrAfterFirst` | popup.js:292-294 | From day n the step reaches a Tuesday 0 to 6 days later, with no Tuesday in between. |
| `Popup.NoLastDateSchedule` | popup.js:285-294 | With no last date, the result is the first Tuesday on or after today. |
| `Popup.LastDateSchedule` | popup.js:287-294 | With a last date, the result is a Tuesday 7 to 13 days after it, and exactly 7 days after when the last date is itself a Tuesday. An unreadable date gives "NaN-NaN-NaN". |
| `Popup.StoredDateSchedule` | popup.js:287-298 | A date in the stored `yyyy-mm-dd` form (years 1000 to 9999) reads back as itself. The next investment is then the Tuesday 7 to 13 days after it, whatever today is. |

## Left out

- The local time zone is taken to be UTC. `getLocalDate` (utils.js:2-12, popup.js:43-53) reads the wall clock and the `Intl` time zone, so it is not modelled; `today` is a parameter. The local-versus-UTC difference between `new Date(string)` and `getUTCDate` cannot arise in this model.
- Investment.CalculateNextInvestmentDate: returns the civil date of the final Date. The locale formatting with `toLocaleString` and `Intl` (investment.js:53-60) is not modelled.
- Investment.CalculateNextInvestmentDate: `lastInvestmentDate` is taken as a time value, an `Option<int>`, where None means falsy. A string given to `new Date(...)` there is not parsed.
- InvestmentStrategy.CalculateNextInvestmentDate: `lastDateStr` is taken as an already-read time value. The string parse and the retry with "/" in place of "-" (investmentStrategy.js:97-101) are not modelled, nor is an invalid Date.
- Popup.CalculateNextInvestmentDate: `new Date(lastDateStr)` is modelled only for the ISO date-only form `YYYY-MM-DD` that the popup itself stores. Any other string is treated as an invalid Date.
- Popup.CalculateNextInvestmentDate: for an invalid Date the model returns "NaN-NaN-NaN" at once. In the source the setters run on NaN and leave it NaN, which gives the same string.
- The range limit of time values (plus or minus 8.64e15 ms), beyond which a Date becomes invalid, is not modelled.
- The JavaScript Dates that InvestmentStrategy and Investment create and move are never shared outside the function. They are held as time values, with each setter as the function it applies; only Popup, which moves the caller's `today`, uses the `JsDate` class.
- `parseFloat` and `parseInt` of the API's strings and of DOM text are not modelled. Prices are already-parsed `Option<real>` values with None for NaN, and counts are integers.
- Floating-point rounding is not modelled: percentages and amounts are exact reals.
- InvestmentStrategy.CalculateInvestmentPercentage: None means an omitted rate argument, which takes its default. An explicit `null` or NaN rate, which JavaScript would not replace, is not modelled.
- Data.CalculateConsecutiveUpMonths: requires the S&P series to be at least as long as the Nasdaq one. With a shorter one, the source returns normally when the count stops before the end of the S&P series. Only a run that reaches that end reads past it and throws a TypeError. Neither case is modelled.
- InvestmentStrategy.CalculateConsecutiveUpMonths: its exact result is stated only for series with one entry per calendar month. On other series only the bounds are stated. The month of an entry is taken from its label date.
- The newest-first ordering of the series is assumed, as the API layer sorts it (api.js:65-70); the counters do not sort.
- `executeInvestment` (investment.js:62-93, popup.js:246-282), `displayInvestmentInfo`, the DOM, `chrome.storage`, the network and the files ui.js, api.js, settings.js, options.js and language.js are I/O or presentation and are not part of this model.

## Findings

| source | as written | input that shows it | evidently intended | confidence | as-written member | corrected member |
|---|---|---|---|---|---|---|
| investmentStrategy.js:116-120 | When the investment day has passed, the month is advanced with `setUTCMonth(getUTCMonth() + 1)` before the day is set. On the 29th to 31st this overflows past a shorter next month. | anchor 31 January 2023, monthly, investment day 15: the result is 15 March 2023 | 15 February 2023: day investmentDay of the next month | not executed | `InvestmentStrategy.JanuaryThirtyFirstSkipsFebruary` | `InvestmentStrategy.CorrectedMonthlyNextMonth` |
| investment.js:46-47 | `setMonth(getMonth() + 1)` and then `setDate(investmentDay)`. The first call overflows on the 29th to 31st before a shorter month. | last investment 31 January 2023, monthly, investment day 15: the candidate is 15 March 2023 | candidate 15 February 2023 | not executed | `Investment.MonthlyCandidateSkipsFebruary` | `Investment.CorrectedCandidateNextMonth` |
| investmentStrategy.js:172-213 | The rise at index 0 is counted twice. It is counted at i = 0 (lines 173-176). At i = 1 the month changes, and the flags still hold index 0's comparison, so lines 184-188 count it again. On a two-entry series, the second count comes instead from the step after the loop (lines 202-213). | monthly closes 110 (March), 100 (February), 105 (January) in both series: the result is 2, though only one month rose | 1, the number of consecutive months in which both rose | not executed | `InvestmentStrategy.UpMonthsCountsOneRiseTwice` | `InvestmentStrategy.ConsecutiveUpMonthsCorrected` |
