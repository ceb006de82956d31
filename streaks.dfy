/**
 * Price series and the runs the streak counters measure.
 *
 * A series is a sequence of periods ordered newest first (index 0 is the
 * current, unfinished period), as the callers sort it before counting. Each
 * qualifying rule below is a predicate on one index; a run is the number of
 * consecutive qualifying indices from a start index, stopping at the first
 * index that does not qualify.
 */
module Streaks {
  import opened Wrappers
  import Calendar

  /** A price as `parseFloat` returns it: None stands for NaN. */
  type Price = Option<real>

  /** One entry of a series: the period's label date and its parsed "1. open" and "4. close" fields. */
  datatype Period = Period(date: Calendar.Date, open: Price, close: Price)

  /** JavaScript `a < b` on parsed prices: false as soon as either side is NaN. */
  predicate Below(a: Price, b: Price) {
    a.Some? && b.Some? && a.value < b.value
  }

  /** Whether both fields of a period parsed to numbers. */
  predicate Numeric(p: Period) {
    p.open.Some? && p.close.Some?
  }

  // ---------------------------------------------------------------------
  // Close-over-close: period i is down when its close is below the close
  // of the newer period i - 1 before it in the series.

  predicate CloseDownAt(s: seq<Period>, i: int) {
    1 <= i < |s| && Below(s[i].close, s[i - 1].close)
  }

  /** Number of consecutive close-over-close down periods from index i. */
  function CloseDownRun(s: seq<Period>, i: nat): nat
    decreases |s| - i
  {
    if CloseDownAt(s, i) then 1 + CloseDownRun(s, i + 1) else 0
  }

  /** The run is the maximal prefix: every index in it qualifies, the one after it does not. */
  lemma {:induction false} CloseDownRunMaximal(s: seq<Period>, i: nat)
    ensures i + CloseDownRun(s, i) <= if i < |s| then |s| else i
    ensures forall j :: i <= j < i + CloseDownRun(s, i) ==> CloseDownAt(s, j)
    ensures !CloseDownAt(s, i + CloseDownRun(s, i))
    decreases |s| - i
  {
    if CloseDownAt(s, i) {
      CloseDownRunMaximal(s, i + 1);
    }
  }

  /** Any k with those two properties is the run: the maximal prefix is unique. */
  lemma {:induction false} CloseDownRunUnique(s: seq<Period>, i: nat, k: nat)
    requires forall j :: i <= j < i + k ==> CloseDownAt(s, j)
    requires !CloseDownAt(s, i + k)
    ensures CloseDownRun(s, i) == k
    decreases k
  {
    if k > 0 {
      assert CloseDownAt(s, i);
      CloseDownRunUnique(s, i + 1, k - 1);
    }
  }

  /** A strictly falling series of length N has N - 1 down periods. */
  lemma StrictlyFallingRun(s: seq<Period>)
    requires |s| >= 1
    requires forall j :: 1 <= j < |s| ==> Below(s[j].close, s[j - 1].close)
    ensures CloseDownRun(s, 1) == |s| - 1
  {
    CloseDownRunUnique(s, 1, |s| - 1);
  }

  // ---------------------------------------------------------------------
  // Candle body: period i is down when its own close is below its own open;
  // a NaN open or close never qualifies.

  predicate CandleDownAt(s: seq<Period>, i: int) {
    0 <= i < |s| && Below(s[i].close, s[i].open)
  }

  /** Number of consecutive candle-body down periods from index i. */
  function CandleDownRun(s: seq<Period>, i: nat): nat
    decreases |s| - i
  {
    if CandleDownAt(s, i) then 1 + CandleDownRun(s, i + 1) else 0
  }

  lemma {:induction false} CandleDownRunMaximal(s: seq<Period>, i: nat)
    ensures i + CandleDownRun(s, i) <= if i < |s| then |s| else i
    ensures forall j :: i <= j < i + CandleDownRun(s, i) ==> CandleDownAt(s, j) && Numeric(s[j])
    ensures !CandleDownAt(s, i + CandleDownRun(s, i))
    decreases |s| - i
  {
    if CandleDownAt(s, i) {
      CandleDownRunMaximal(s, i + 1);
    }
  }

  lemma {:induction false} CandleDownRunUnique(s: seq<Period>, i: nat, k: nat)
    requires forall j :: i <= j < i + k ==> CandleDownAt(s, j)
    requires !CandleDownAt(s, i + k)
    ensures CandleDownRun(s, i) == k
    decreases k
  {
    if k > 0 {
      assert CandleDownAt(s, i);
      CandleDownRunUnique(s, i + 1, k - 1);
    }
  }

  /** The run stops before the first period with a NaN field, whatever comes after it. */
  lemma NonNumericStopsCandleRun(s: seq<Period>, i: nat, j: nat)
    requires i <= j < |s| && !Numeric(s[j])
    ensures CandleDownRun(s, i) <= j - i
  {
    CandleDownRunMaximal(s, i);
  }

  /** A candle-body run from index i does not look at the periods before i. */
  lemma {:induction false} CandleDownRunIgnoresPrefix(s: seq<Period>, t: seq<Period>, i: nat)
    requires |s| == |t|
    requires forall j :: i <= j < |s| ==> s[j] == t[j]
    ensures CandleDownRun(s, i) == CandleDownRun(t, i)
    decreases |s| - i
  {
    if i < |s| {
      CandleDownRunIgnoresPrefix(s, t, i + 1);
    }
  }

  // ---------------------------------------------------------------------
  // Paired rise: at index i both series closed above their close of the older
  // period i + 1 (JavaScript `>`, false on NaN).

  /** JavaScript `a[i].close > a[i + 1].close`, false past the end of the series. */
  predicate Rose(a: seq<Period>, i: int) {
    0 <= i && i + 1 < |a| && Below(a[i + 1].close, a[i].close)
  }

  predicate PairedUpAt(a: seq<Period>, b: seq<Period>, i: int) {
    Rose(a, i) && Rose(b, i)
  }

  /** Number of consecutive indices from i at which both series rose. */
  function PairedUpRun(a: seq<Period>, b: seq<Period>, i: nat): nat
    decreases |a| - i
  {
    if PairedUpAt(a, b, i) then 1 + PairedUpRun(a, b, i + 1) else 0
  }

  lemma {:induction false} PairedUpRunMaximal(a: seq<Period>, b: seq<Period>, i: nat)
    ensures i + PairedUpRun(a, b, i) <= if i < |a| - 1 && i < |b| - 1 then (if |a| < |b| then |a| - 1 else |b| - 1) else i
    ensures forall j :: i <= j < i + PairedUpRun(a, b, i) ==> PairedUpAt(a, b, j)
    ensures !PairedUpAt(a, b, i + PairedUpRun(a, b, i))
    decreases |a| - i
  {
    if PairedUpAt(a, b, i) {
      PairedUpRunMaximal(a, b, i + 1);
    }
  }

  lemma {:induction false} PairedUpRunUnique(a: seq<Period>, b: seq<Period>, i: nat, k: nat)
    requires forall j :: i <= j < i + k ==> PairedUpAt(a, b, j)
    requires !PairedUpAt(a, b, i + k)
    ensures PairedUpRun(a, b, i) == k
    decreases k
  {
    if k > 0 {
      assert PairedUpAt(a, b, i);
      PairedUpRunUnique(a, b, i + 1, k - 1);
    }
  }
}
