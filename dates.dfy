/**
 * Calendar dates as the service sees them: the `reviewDate`, `startDate`,
 * `endDate` and `dateOfJoining` columns, their `yyyy-MM-dd` rendering and the
 * `java.sql.Date.valueOf` parse applied to a filter's `reviewDate` string.
 *
 * A date is a (year, month, day) triple. Calendar arithmetic (month lengths,
 * leap years, time zones) is not modelled; dates compare lexicographically,
 * which is how `java.util.Date.compareTo` orders valid calendar dates.
 */
module Dates {
  import opened Wrappers

  datatype CalendarDate = CalendarDate(year: int, month: int, day: int)

  /** Four-digit years, months 1..12, days 1..31. */
  predicate InRange(d: CalendarDate) {
    1 <= d.year <= 9999 && 1 <= d.month <= 12 && 1 <= d.day <= 31
  }

  type Date = d: CalendarDate | InRange(d) witness CalendarDate(1970, 1, 1)

  /** `a.compareTo(b)` of `java.util.Date`: -1, 0 or 1 as `a` is before, equal to or after `b`. */
  function Compare(a: Date, b: Date): (c: int)
    ensures -1 <= c <= 1
    ensures c == 0 <==> a == b
  {
    if a.year != b.year then (if a.year < b.year then -1 else 1)
    else if a.month != b.month then (if a.month < b.month then -1 else 1)
    else if a.day != b.day then (if a.day < b.day then -1 else 1)
    else 0
  }

  /** `a` is a later calendar day than `b`. */
  predicate After(a: Date, b: Date) {
    Compare(a, b) > 0
  }

  /** Swapping the arguments of `compareTo` flips the sign of its result. */
  lemma CompareAntisymmetric(a: Date, b: Date)
    ensures Compare(b, a) == -Compare(a, b)
  {
  }

  /** Later dates are never earlier: `After` is a strict total order on dates. */
  lemma AfterTotalOrder(a: Date, b: Date, c: Date)
    ensures !After(a, a)
    ensures After(a, b) ==> !After(b, a)
    ensures a != b ==> After(a, b) || After(b, a)
    ensures After(a, b) && After(b, c) ==> After(a, c)
  {
    OrdinalOrder(a, b);
    OrdinalOrder(b, c);
    OrdinalOrder(a, c);
  }

  /** A day number that grows with the date (31 slots per month, 12 months per year). */
  function Ordinal(d: Date): int {
    d.year * 372 + (d.month - 1) * 31 + (d.day - 1)
  }

  /** The day number is an order embedding of `compareTo`. */
  lemma OrdinalOrder(a: Date, b: Date)
    ensures Compare(a, b) < 0 <==> Ordinal(a) < Ordinal(b)
    ensures Compare(a, b) == 0 <==> Ordinal(a) == Ordinal(b)
    ensures Compare(a, b) > 0 <==> Ordinal(a) > Ordinal(b)
  {
    var ma, mb := (a.month - 1) * 31 + (a.day - 1), (b.month - 1) * 31 + (b.day - 1);
    assert 0 <= ma < 372 && 0 <= mb < 372;
    if a.year < b.year {
      assert a.year * 372 + 372 <= b.year * 372;
    } else if a.year > b.year {
      assert b.year * 372 + 372 <= a.year * 372;
    }
  }

  // ---------------------------------------------------------------- rendering

  function DigitChar(n: nat): char
    requires n < 10
  {
    "0123456789"[n]
  }

  predicate IsDigit(c: char) {
    '0' <= c <= '9'
  }

  function DigitValue(c: char): nat
    requires IsDigit(c)
  {
    (c as int - '0' as int) as nat
  }

  function Pow10(w: nat): (p: nat)
    ensures p >= 1
  {
    if w == 0 then 1 else 10 * Pow10(w - 1)
  }

  /** The last `width` decimal digits of `n`, left-padded with zeros. */
  function Digits(n: nat, width: nat): (s: string)
    ensures |s| == width
    ensures forall i :: 0 <= i < |s| ==> IsDigit(s[i])
  {
    if width == 0 then [] else Digits(n / 10, width - 1) + [DigitChar(n % 10)]
  }

  predicate AllDigits(s: string) {
    forall i :: 0 <= i < |s| ==> IsDigit(s[i])
  }

  /** The value of a string of decimal digits. */
  function ValueOf(s: string): nat
    requires AllDigits(s)
  {
    if s == [] then 0 else ValueOf(s[..|s| - 1]) * 10 + DigitValue(s[|s| - 1])
  }

  lemma {:induction false} DigitsValue(n: nat, width: nat)
    requires n < Pow10(width)
    ensures ValueOf(Digits(n, width)) == n
  {
    if width > 0 {
      var s := Digits(n, width);
      assert s[..|s| - 1] == Digits(n / 10, width - 1);
      DigitsValue(n / 10, width - 1);
      assert DigitValue(DigitChar(n % 10)) == n % 10 by {
        var k := n % 10;
        assert k == 0 || k == 1 || k == 2 || k == 3 || k == 4 || k == 5 || k == 6 || k == 7 || k == 8 || k == 9;
      }
    }
  }

  /**
   * `s` is `yyyy-MM-dd` for `d`: four digits spelling the year, a dash, two
   * digits spelling the month, a dash, two digits spelling the day.
   */
  predicate IsoText(s: string, d: Date) {
    && |s| == 10 && s[4] == '-' && s[7] == '-'
    && AllDigits(s[..4]) && ValueOf(s[..4]) == d.year
    && AllDigits(s[5..7]) && ValueOf(s[5..7]) == d.month
    && AllDigits(s[8..]) && ValueOf(s[8..]) == d.day
  }

  /** `yyyy-MM-dd`: the text both `SimpleDateFormat("yyyy-MM-dd")` and `java.sql.Date.toString` produce. */
  function IsoString(d: Date): (s: string)
    ensures |s| == 10 && IsoText(s, d)
    ensures ParseSqlDate(s) == Some(d)
  {
    var s := Digits(d.year, 4) + "-" + Digits(d.month, 2) + "-" + Digits(d.day, 2);
    IsoStringParses(d, s);
    s
  }

  // ------------------------------------------------------------------ parsing

  /** `s.indexOf(c, from)`: the first index at or after `from` holding `c`, or -1. */
  function IndexOf(s: string, c: char, from: nat): (i: int)
    ensures i == -1 || (from <= i < |s| && s[i] == c)
    ensures forall k :: from <= k < |s| && (i == -1 || k < i) ==> s[k] != c
    decreases |s| - from
  {
    if from >= |s| then -1 else if s[from] == c then from else IndexOf(s, c, from + 1)
  }

  /** `Integer.parseInt` on a slice, radix 10: an optional sign and at least one digit. */
  function ParseInt(s: string): (r: Option<int>)
    ensures r.Some? && AllDigits(s) ==> r.value == ValueOf(s)
    ensures s == [] ==> r.None?
  {
    if |s| == 0 then None
    else if s[0] == '-' || s[0] == '+' then
      if |s| == 1 || !AllDigits(s[1..]) then None
      else if s[0] == '-' then Some(0 - ValueOf(s[1..]) as int) else Some(ValueOf(s[1..]))
    else if AllDigits(s) then Some(ValueOf(s))
    else None
  }

  /**
   * `java.sql.Date.valueOf(s)`: a four-character year, a one- or two-character
   * month and day, separated by the first two dashes; month 1..12 and day 1..31.
   * `None` stands for the `IllegalArgumentException` it throws otherwise.
   */
  function ParseSqlDate(s: string): (r: Option<Date>)
    ensures r.Some? ==> 8 <= |s| <= 10 && s[4] == '-'
    ensures r.Some? ==>
      var second := IndexOf(s, '-', 5);
      && 6 <= second <= 7 && second < |s| - 1
      && ParseInt(s[..4]) == Some(r.value.year)
      && ParseInt(s[5..second]) == Some(r.value.month)
      && ParseInt(s[second + 1..]) == Some(r.value.day)
  {
    var firstDash := IndexOf(s, '-', 0);
    var secondDash := IndexOf(s, '-', firstDash + 1);
    if firstDash > 0 && secondDash > 0 && secondDash < |s| - 1
       && firstDash == 4
       && 1 < secondDash - firstDash <= 3
       && 1 < |s| - secondDash <= 3
    then
      match (ParseInt(s[..firstDash]), ParseInt(s[firstDash + 1..secondDash]), ParseInt(s[secondDash + 1..]))
      case (Some(y), Some(m), Some(d)) =>
        if InRange(CalendarDate(y, m, d)) then Some(CalendarDate(y, m, d)) else None
      case _ => None
    else None
  }

  lemma IsoStringParses(d: Date, s: string)
    requires s == Digits(d.year, 4) + "-" + Digits(d.month, 2) + "-" + Digits(d.day, 2)
    ensures ParseSqlDate(s) == Some(d)
  {
    var ys, ms, ds := Digits(d.year, 4), Digits(d.month, 2), Digits(d.day, 2);
    assert |s| == 10 && s[4] == '-' && s[7] == '-';
    assert forall k :: 0 <= k < 4 ==> s[k] == ys[k];
    assert IndexOf(s, '-', 0) == 4;
    assert forall k :: 5 <= k < 7 ==> s[k] == ms[k - 5];
    assert IndexOf(s, '-', 5) == 7;
    assert s[..4] == ys && s[5..7] == ms && s[8..] == ds;
    DigitsValue(d.year, 4);
    DigitsValue(d.month, 2);
    DigitsValue(d.day, 2);
  }

  /** `Integer.parseInt` reads a non-empty run of digits as its value. */
  lemma ParseIntDigits(t: string)
    requires t != [] && AllDigits(t)
    ensures ParseInt(t) == Some(ValueOf(t))
  {
    assert IsDigit(t[0]);
  }

  /** A run of `n` digits is worth less than `10^n`. */
  lemma {:induction false} ValueOfBound(t: string)
    requires AllDigits(t)
    ensures ValueOf(t) < Pow10(|t|)
  {
    if t != [] {
      ValueOfBound(t[..|t| - 1]);
      assert DigitValue(t[|t| - 1]) <= 9;
    }
  }

  /** Once the dashes and the three numbers are known, the parse yields the date they spell. */
  lemma ParseSqlDateOfParts(s: string, second: int, y: int, m: int, d: int)
    requires IndexOf(s, '-', 0) == 4 && IndexOf(s, '-', 5) == second
    requires 6 <= second <= 7 && 1 < |s| - second <= 3
    requires ParseInt(s[..4]) == Some(y) && ParseInt(s[5..second]) == Some(m)
    requires ParseInt(s[second + 1..]) == Some(d)
    requires InRange(CalendarDate(y, m, d))
    ensures ParseSqlDate(s) == Some(CalendarDate(y, m, d))
  {
  }

  /**
   * Every text of four digits, a dash, one or two digits, a dash and one or two
   * digits parses, provided the year is not zero and the month and day are in
   * range; the date is the one the three numbers spell.
   */
  lemma WellFormedParses(y: string, m: string, d: string)
    requires |y| == 4 && 1 <= |m| <= 2 && 1 <= |d| <= 2
    requires AllDigits(y) && AllDigits(m) && AllDigits(d)
    requires 1 <= ValueOf(y) && 1 <= ValueOf(m) <= 12 && 1 <= ValueOf(d) <= 31
    ensures ParseSqlDate(y + "-" + m + "-" + d) == Some(CalendarDate(ValueOf(y), ValueOf(m), ValueOf(d)))
  {
    var s := y + "-" + m + "-" + d;
    var second := 5 + |m|;
    assert s[4] == '-' && s[second] == '-';
    assert IndexOf(s, '-', 0) == 4 by {
      forall k | 0 <= k < 4 ensures s[k] != '-' {
        assert s[k] == y[k] && IsDigit(y[k]);
      }
    }
    assert IndexOf(s, '-', 5) == second by {
      forall k | 5 <= k < second ensures s[k] != '-' {
        assert s[k] == m[k - 5] && IsDigit(m[k - 5]);
      }
    }
    assert s[..4] == y && s[5..second] == m && s[second + 1..] == d;
    ParseIntDigits(y);
    ParseIntDigits(m);
    ParseIntDigits(d);
    ValueOfBound(y);
    assert Pow10(4) == 10000;
    ParseSqlDateOfParts(s, second, ValueOf(y), ValueOf(m), ValueOf(d));
  }
}
