/**
 * `getTodayDate`: the local calendar day of a JavaScript `Date`, written
 * `yyyy-mm-dd` with the month and the day padded to two digits.
 */
module Dates {
  import opened Options

  /** A calendar day, as a `yyyy-mm-dd` date value names it; `month` counts from 1. */
  datatype Day = Day(year: nat, month: nat, day: nat)

  /** What a JavaScript `Date` reports through `getFullYear()`, `getMonth()` (0 for January) and `getDate()`. */
  datatype LocalDate = LocalDate(fullYear: nat, monthIndex: nat, date: nat)

  /** The ranges `getMonth()` and `getDate()` return values in. */
  predicate ValidLocalDate(c: LocalDate) {
    c.monthIndex < 12 && 1 <= c.date <= 31
  }

  /** The day a `Date` falls on. */
  function TodayOf(c: LocalDate): Day {
    Day(c.fullYear, c.monthIndex + 1, c.date)
  }

  predicate IsDigit(ch: char) {
    '0' <= ch <= '9'
  }

  predicate AllDigits(s: string) {
    forall k :: 0 <= k < |s| ==> IsDigit(s[k])
  }

  function DigitChar(d: nat): (ch: char)
    requires d < 10
    ensures IsDigit(ch)
  {
    ('0' as int + d) as char
  }

  function DigitValue(ch: char): (d: nat)
    requires IsDigit(ch)
    ensures d < 10
  {
    ch as int - '0' as int
  }

  function Pow10(k: nat): (p: nat)
    ensures p >= 1
  {
    if k == 0 then 1 else 10 * Pow10(k - 1)
  }

  /** `String(n)` of a non-negative integer below 10^21 (every calendar field is): its decimal digits, with no leading zero. */
  function NatToString(n: nat): (r: string)
    ensures |r| >= 1 && AllDigits(r)
    ensures (r[0] == '0') == (n == 0)
    decreases n
  {
    if n < 10 then [DigitChar(n)] else NatToString(n / 10) + [DigitChar(n % 10)]
  }

  /** The number a string of decimal digits denotes (an empty string denotes 0). */
  function DecimalValue(s: string): nat
    requires AllDigits(s)
    decreases |s|
  {
    if s == [] then 0 else DecimalValue(s[..|s| - 1]) * 10 + DigitValue(s[|s| - 1])
  }

  /** `s.padStart(len, fill)`: `s` preceded by as many copies of `fill` as bring it to `len` characters. */
  function PadStart(s: string, len: nat, fill: char): (r: string)
    ensures |r| == if |s| >= len then |s| else len
    ensures r[|r| - |s|..] == s
    ensures forall k :: 0 <= k < |r| - |s| ==> r[k] == fill
    decreases len - |s|
  {
    if |s| >= len then s else PadStart([fill] + s, len, fill)
  }

  /** `String(n).padStart(2, '0')`. */
  function TwoDigits(n: nat): string {
    PadStart(NatToString(n), 2, '0')
  }

  /** `${y}-${m}-${d}`: three fields joined by dashes. */
  function JoinYmd(y: string, m: string, d: string): string {
    y + "-" + m + "-" + d
  }

  /** Where the three fields and the two dashes sit in a joined text. */
  lemma JoinYmdParts(y: string, m: string, d: string)
    requires |m| == 2
    ensures var s := JoinYmd(y, m, d);
      |s| == |y| + 4 + |d| && s[..|y|] == y && s[|y|] == '-' && s[|y| + 1..|y| + 3] == m
      && s[|y| + 3] == '-' && s[|y| + 4..] == d
  {
    var s := JoinYmd(y, m, d);
    assert s == y + (['-'] + m + ['-'] + d);
    assert s[|y|..] == ['-'] + m + ['-'] + d;
  }

  /** `getTodayDate()` on the `Date` whose fields are `c`. */
  function GetTodayDate(c: LocalDate): string {
    JoinYmd(NatToString(c.fullYear), TwoDigits(c.monthIndex + 1), TwoDigits(c.date))
  }

  /** Position of the first `-` in `s`, or `|s|` when there is none. */
  function IndexOfDash(s: string): (i: nat)
    ensures i <= |s|
    ensures i < |s| ==> s[i] == '-'
    ensures forall k :: 0 <= k < i ==> s[k] != '-'
  {
    if s == [] || s[0] == '-' then 0 else 1 + IndexOfDash(s[1..])
  }

  /** Reads a `y-mm-dd` text (a year of one or more digits, then a two-digit month and day) back into the day it names. */
  function ParseYmd(s: string): Option<Day> {
    var i := IndexOfDash(s);
    if 0 < i && |s| == i + 6 && s[i + 3] == '-'
       && AllDigits(s[..i]) && AllDigits(s[i + 1..i + 3]) && AllDigits(s[i + 4..])
    then Some(Day(DecimalValue(s[..i]), DecimalValue(s[i + 1..i + 3]), DecimalValue(s[i + 4..])))
    else None
  }

  lemma {:induction false} DecimalValueOfNatToString(n: nat)
    ensures DecimalValue(NatToString(n)) == n
    decreases n
  {
    if n >= 10 {
      DecimalValueOfNatToString(n / 10);
      var r := NatToString(n);
      assert r[..|r| - 1] == NatToString(n / 10);
    }
  }

  lemma {:induction false} DecimalValueLeadingZero(s: string)
    requires AllDigits(s)
    ensures AllDigits(['0'] + s) && DecimalValue(['0'] + s) == DecimalValue(s)
    decreases |s|
  {
    var t := ['0'] + s;
    if s == [] {
      assert t[..|t| - 1] == [];
    } else {
      assert t[..|t| - 1] == ['0'] + s[..|s| - 1];
      DecimalValueLeadingZero(s[..|s| - 1]);
    }
  }

  /** `String(n)` has exactly `k` digits when `n` lies in `[10^(k-1), 10^k)`. */
  lemma {:induction false} NatToStringLength(n: nat, k: nat)
    requires 1 <= k && n < Pow10(k) && (k == 1 || Pow10(k - 1) <= n)
    ensures |NatToString(n)| == k
    decreases k
  {
    if k > 1 {
      assert Pow10(k) == 10 * Pow10(k - 1);
      if k > 2 {
        assert Pow10(k - 1) == 10 * Pow10(k - 2);
      }
      NatToStringLength(n / 10, k - 1);
    }
  }

  /** A number below 100, padded to two digits, is two digits that read back as that number. */
  lemma TwoDigitsShape(n: nat)
    requires n < 100
    ensures |TwoDigits(n)| == 2 && AllDigits(TwoDigits(n)) && DecimalValue(TwoDigits(n)) == n
  {
    var s := NatToString(n);
    DecimalValueOfNatToString(n);
    if n < 10 {
      NatToStringLength(n, 1);
      assert TwoDigits(n) == PadStart(['0'] + s, 2, '0') == ['0'] + s;
      DecimalValueLeadingZero(s);
    } else {
      NatToStringLength(n, 2);
    }
  }

  /** A year of digits followed by a two-digit month and day reads back into those three numbers. */
  lemma ParseJoinYmd(y: string, m: string, d: string)
    requires |y| >= 1 && |m| == 2 && |d| == 2 && AllDigits(y) && AllDigits(m) && AllDigits(d)
    ensures ParseYmd(JoinYmd(y, m, d)) == Some(Day(DecimalValue(y), DecimalValue(m), DecimalValue(d)))
  {
    var s := JoinYmd(y, m, d);
    JoinYmdParts(y, m, d);
  }

  /** A formatted day reads back as that day. */
  lemma ParseFormatted(year: nat, month: nat, day: nat)
    requires month < 100 && day < 100
    ensures ParseYmd(JoinYmd(NatToString(year), TwoDigits(month), TwoDigits(day))) == Some(Day(year, month, day))
  {
    var yr, mm, dd := NatToString(year), TwoDigits(month), TwoDigits(day);
    TwoDigitsShape(month);
    TwoDigitsShape(day);
    DecimalValueOfNatToString(year);
    ParseJoinYmd(yr, mm, dd);
  }

  /** Reading `getTodayDate()` back yields the day the clock is on: no two days share a text. */
  lemma GetTodayDateRoundTrip(c: LocalDate)
    requires ValidLocalDate(c)
    ensures ParseYmd(GetTodayDate(c)) == Some(TodayOf(c))
  {
    assert GetTodayDate(c) == JoinYmd(NatToString(c.fullYear), TwoDigits(c.monthIndex + 1), TwoDigits(c.date));
    ParseFormatted(c.fullYear, c.monthIndex + 1, c.date);
  }

  /** With a four-digit year, `getTodayDate()` is ten characters long, as `<input type="date">` values are. */
  lemma GetTodayDateLength(c: LocalDate)
    requires ValidLocalDate(c) && 1000 <= c.fullYear <= 9999
    ensures |GetTodayDate(c)| == 10
  {
    assert Pow10(3) == 1000 && Pow10(4) == 10000;
    NatToStringLength(c.fullYear, 4);
    TwoDigitsShape(c.monthIndex + 1);
    TwoDigitsShape(c.date);
    JoinYmdParts(NatToString(c.fullYear), TwoDigits(c.monthIndex + 1), TwoDigits(c.date));
  }
}
