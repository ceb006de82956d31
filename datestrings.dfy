/**
 * The `yyyy-mm-dd` strings the schedulers return and the investment records
 * store, and the date-only form of the ECMA-262 Date Time String Format that
 * `new Date(s)` reads back.
 */
module DateStrings {
  import opened Wrappers
  import opened Calendar

  predicate IsDigit(c: char) {
    '0' <= c <= '9'
  }

  predicate AllDigits(s: string) {
    forall i :: 0 <= i < |s| ==> IsDigit(s[i])
  }

  function DigitChar(d: int): (c: char)
    requires 0 <= d <= 9
    ensures IsDigit(c)
  {
    (48 + d) as char
  }

  /** `n.toString()` for a non-negative integer: its decimal digits, without leading zeros. */
  function NatToString(n: nat): (s: string)
    ensures 1 <= |s| && AllDigits(s)
  {
    if n < 10 then [DigitChar(n)] else NatToString(n / 10) + [DigitChar(n % 10)]
  }

  /** `i.toString()` for any integer. */
  function IntToString(i: int): string {
    if i < 0 then "-" + NatToString(-i) else NatToString(i)
  }

  /** `s.padStart(2, "0")`: zeros in front of a string shorter than two characters. */
  function PadStart2(s: string): (r: string)
    ensures |r| == if |s| < 2 then 2 else |s|
    ensures r[|r| - |s|..] == s
    ensures forall i :: 0 <= i < |r| - |s| ==> r[i] == '0'
  {
    if |s| >= 2 then s else if |s| == 1 then "0" + s else "00"
  }

  /**
   * The string built from getFullYear(), getMonth() + 1 and getDate(), the
   * last two padded to two digits: the year's digits, then two-digit month
   * and day fields, each after a dash.
   */
  function FormatYmd(d: Date): (r: string)
    ensures 1 <= d.month <= 12 && 1 <= d.day <= 31 ==>
      |r| == |IntToString(d.year)| + 6 && r[..|r| - 6] == IntToString(d.year) &&
      r[|r| - 6] == '-' && TwoDigitField(r[|r| - 5..|r| - 3], d.month) &&
      r[|r| - 3] == '-' && TwoDigitField(r[|r| - 2..], d.day)
  {
    YmdLayout(IntToString(d.year), d.month, d.day);
    IntToString(d.year) + "-" + PadStart2(IntToString(d.month)) + "-" + PadStart2(IntToString(d.day))
  }

  /** Two decimal digits that read as n. */
  predicate TwoDigitField(s: string, n: int) {
    |s| == 2 && AllDigits(s) && DigitsValue(s) == n
  }

  /** Where the padded month and day fields sit after a year of any length. */
  lemma YmdLayout(y: string, month: int, day: int)
    ensures 1 <= month <= 12 && 1 <= day <= 31 ==>
      var s := y + "-" + PadStart2(IntToString(month)) + "-" + PadStart2(IntToString(day));
      |s| == |y| + 6 && s[..|s| - 6] == y &&
      s[|s| - 6] == '-' && TwoDigitField(s[|s| - 5..|s| - 3], month) &&
      s[|s| - 3] == '-' && TwoDigitField(s[|s| - 2..], day)
  {
    if 1 <= month <= 12 && 1 <= day <= 31 {
      TwoDigitsRoundTrip(month);
      TwoDigitsRoundTrip(day);
      TailSlices(y, PadStart2(IntToString(month)), PadStart2(IntToString(day)));
    }
  }

  /** Where two two-character fields sit after a head of any length. */
  lemma TailSlices(y: string, m: string, dd: string)
    requires |m| == 2 && |dd| == 2
    ensures var s := y + "-" + m + "-" + dd;
      |s| == |y| + 6 && s[..|s| - 6] == y && s[|s| - 6] == '-' && s[|s| - 5..|s| - 3] == m &&
      s[|s| - 3] == '-' && s[|s| - 2..] == dd
  {
    var s := y + "-" + m + "-" + dd;
    assert s == y + ("-" + m + "-" + dd);
    assert s[|s| - 5..|s| - 3] == m;
    assert s[|s| - 2..] == dd;
  }

  /** The number a string of decimal digits denotes. */
  function DigitsValue(s: string): nat
    requires AllDigits(s)
  {
    if s == [] then 0 else DigitsValue(s[..|s| - 1]) * 10 + (s[|s| - 1] as int - 48)
  }

  /**
   * `YYYY-MM-DD` with four-digit year, two-digit month and two-digit day,
   * naming a valid date; anything else is not read as a date here.
   */
  function ParseIsoDate(s: string): (r: Option<Date>)
    ensures r.Some? ==> Valid(r.value) && 0 <= r.value.year <= 9999
  {
    if |s| == 10 && s[4] == '-' && s[7] == '-' && AllDigits(s[..4]) && AllDigits(s[5..7]) && AllDigits(s[8..]) then
      var d := Date(DigitsValue(s[..4]), DigitsValue(s[5..7]), DigitsValue(s[8..]));
      assert DigitsValue(s[..4]) <= 9999 by { DigitsBound(s[..4]); }
      if Valid(d) then Some(d) else None
    else
      None
  }

  lemma {:induction false} DigitsBound(s: string)
    requires AllDigits(s) && |s| <= 4
    ensures DigitsValue(s) < if |s| == 0 then 1 else if |s| == 1 then 10 else if |s| == 2 then 100 else if |s| == 3 then 1000 else 10000
  {
    if s != [] {
      DigitsBound(s[..|s| - 1]);
    }
  }

  lemma {:induction false} NatToStringValue(n: nat)
    ensures DigitsValue(NatToString(n)) == n
    ensures n < 10 ==> |NatToString(n)| == 1
    ensures 10 <= n < 100 ==> |NatToString(n)| == 2
    ensures 100 <= n < 1000 ==> |NatToString(n)| == 3
    ensures 1000 <= n < 10000 ==> |NatToString(n)| == 4
  {
    var s := NatToString(n);
    if n >= 10 {
      NatToStringValue(n / 10);
      assert s[..|s| - 1] == NatToString(n / 10);
    }
  }

  /** A month or day number, padded, is two digits that read back as the number. */
  lemma TwoDigitsRoundTrip(n: int)
    requires 1 <= n <= 99
    ensures var p := PadStart2(IntToString(n)); |p| == 2 && AllDigits(p) && DigitsValue(p) == n
  {
    NatToStringValue(n);
    var s := NatToString(n);
    var p := PadStart2(s);
    if n < 10 {
      assert p == ['0'] + s;
      assert p[..1] == ['0'];
    }
  }

  /** Where the three fields sit in a string of the form year-month-day. */
  lemma FieldSlices(y: string, m: string, dd: string)
    requires |y| == 4 && |m| == 2 && |dd| == 2
    ensures var s := y + "-" + m + "-" + dd;
      |s| == 10 && s[4] == '-' && s[7] == '-' && s[..4] == y && s[5..7] == m && s[8..] == dd
  {
    var s := y + "-" + m + "-" + dd;
    assert s == y + ("-" + m + "-" + dd);
    assert s[5..7] == m;
  }

  /** For the years 1000 to 9999 the string is in ISO form and reads back as the same date. */
  lemma FormatParseRoundTrip(d: Date)
    requires Valid(d) && 1000 <= d.year <= 9999
    ensures |FormatYmd(d)| == 10
    ensures ParseIsoDate(FormatYmd(d)) == Some(d)
  {
    NatToStringValue(d.year);
    TwoDigitsRoundTrip(d.month);
    TwoDigitsRoundTrip(d.day);
    var y, m, dd := IntToString(d.year), PadStart2(IntToString(d.month)), PadStart2(IntToString(d.day));
    FieldSlices(y, m, dd);
    var s := FormatYmd(d);
    assert s == y + "-" + m + "-" + dd;
  }
}
