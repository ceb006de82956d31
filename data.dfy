/**
 * data.js: the simple `calculateConsecutiveUpMonths`, which counts, from the
 * newest entry back, the periods in which both series closed above the
 * period before.
 */
module Data {
  import opened Wrappers
  import opened Streaks

  /**
   * Counts from index 0 while both the tech and the broad-market series rose
   * against the next older entry; stops at the first index where either did
   * not (a NaN close never rises). The loop runs over the tech series' length
   * only and reads the broad-market series at the same indices, so that
   * series must be at least as long.
   */
  method CalculateConsecutiveUpMonths(nasdaqData: Option<seq<Period>>, sp500Data: Option<seq<Period>>)
    returns (consecutiveUpMonths: nat)
    requires nasdaqData.Some? && sp500Data.Some? && |nasdaqData.value| >= 2 && |sp500Data.value| >= 2 ==>
               |sp500Data.value| >= |nasdaqData.value|
    ensures nasdaqData.None? || sp500Data.None? ==> consecutiveUpMonths == 0
    ensures nasdaqData.Some? && sp500Data.Some? && (|nasdaqData.value| < 2 || |sp500Data.value| < 2) ==> consecutiveUpMonths == 0
    ensures nasdaqData.Some? && sp500Data.Some? && |nasdaqData.value| >= 2 && |sp500Data.value| >= 2 ==>
              && consecutiveUpMonths == PairedUpRun(nasdaqData.value, sp500Data.value, 0)
              && consecutiveUpMonths <= |nasdaqData.value| - 1
              && (forall i :: 0 <= i < consecutiveUpMonths ==> PairedUpAt(nasdaqData.value, sp500Data.value, i))
              && !PairedUpAt(nasdaqData.value, sp500Data.value, consecutiveUpMonths)
  {
    if nasdaqData.None? || sp500Data.None? {
      return 0;
    }
    var nasdaqEntries, sp500Entries := nasdaqData.value, sp500Data.value;
    if |nasdaqEntries| < 2 || |sp500Entries| < 2 {
      return 0;
    }

    consecutiveUpMonths := 0;
    for i := 0 to |nasdaqEntries| - 1
      invariant consecutiveUpMonths == i
      invariant consecutiveUpMonths + PairedUpRun(nasdaqEntries, sp500Entries, i) == PairedUpRun(nasdaqEntries, sp500Entries, 0)
    {
      var currentNasdaqPrice := nasdaqEntries[i].close;
      var previousNasdaqPrice := nasdaqEntries[i + 1].close;
      var currentSP500Price := sp500Entries[i].close;
      var previousSP500Price := sp500Entries[i + 1].close;
      if Below(previousNasdaqPrice, currentNasdaqPrice) && Below(previousSP500Price, currentSP500Price) {
        consecutiveUpMonths := consecutiveUpMonths + 1;
      } else {
        break;
      }
    }
    PairedUpRunMaximal(nasdaqEntries, sp500Entries, 0);
  }
}
