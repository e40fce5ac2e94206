/**
 * Calendar dates as the router reads and writes them: `datetime.strptime(s,
 * "%Y-%m-%d").date()` to read a date string, `date.isoformat()` to write one,
 * and the chronological order `<`/`>` of `date` values.
 */
module Dates {
  import opened Options
  import StringOrder

  datatype Date = Date(year: int, month: int, day: int)

  predicate IsLeapYear(y: int)
  {
    y % 4 == 0 && (y % 100 != 0 || y % 400 == 0)
  }

  function DaysInMonth(y: int, m: int): int
    requires 1 <= m <= 12
  {
    if m == 2 then (if IsLeapYear(y) then 29 else 28)
    else if m == 4 || m == 6 || m == 9 || m == 11 then 30
    else 31
  }

  /** A date that `datetime.date` can hold: years 1 to 9999, real calendar days. */
  predicate Valid(d: Date)
  {
    1 <= d.year <= 9999 && 1 <= d.month <= 12 && 1 <= d.day <= DaysInMonth(d.year, d.month)
  }

  /** Chronological order (`date.__lt__`): by year, then month, then day. */
  predicate Before(a: Date, b: Date)
  {
    a.year < b.year || (a.year == b.year && (a.month < b.month || (a.month == b.month && a.day < b.day)))
  }

  // ---- decimal digits ----

  predicate IsDigit(c: char)
  {
    '0' <= c <= '9'
  }

  predicate AllDigits(s: string)
  {
    forall i | 0 <= i < |s| :: IsDigit(s[i])
  }

  function DigitValue(c: char): nat
    requires IsDigit(c)
  {
    c as int - '0' as int
  }

  function DigitChar(n: nat): char
    requires n < 10
  {
    (n + '0' as int) as char
  }

  /** The number a string of decimal digits denotes. */
  function Value(s: string): nat
    requires AllDigits(s)
  {
    if s == [] then 0 else 10 * Value(s[..|s| - 1]) + DigitValue(s[|s| - 1])
  }

  function Pow10(w: nat): nat
  {
    if w == 0 then 1 else 10 * Pow10(w - 1)
  }

  /** `n` written with exactly `w` digits, zero-padded on the left (`%0wd`). */
  function Digits(n: nat, w: nat): (s: string)
    ensures |s| == w && AllDigits(s)
  {
    if w == 0 then [] else Digits(n / 10, w - 1) + [DigitChar(n % 10)]
  }

  // ---- strptime ----

  /** The `%m` directive matched in full: `1[0-2]|0[1-9]|[1-9]`. */
  function MonthToken(t: string): Option<int>
  {
    if |t| == 1 && IsDigit(t[0]) && t[0] != '0' then Some(DigitValue(t[0]))
    else if |t| == 2 && AllDigits(t) && 1 <= Value(t) <= 12 then Some(Value(t))
    else None
  }

  /** The `%d` directive matched in full: `3[01]|[12]\d|0[1-9]|[1-9]| [1-9]`. */
  function DayToken(t: string): Option<int>
  {
    if |t| == 1 && IsDigit(t[0]) && t[0] != '0' then Some(DigitValue(t[0]))
    else if |t| == 2 && t[0] == ' ' && IsDigit(t[1]) && t[1] != '0' then Some(DigitValue(t[1]))
    else if |t| == 2 && AllDigits(t) && 1 <= Value(t) <= 31 then Some(Value(t))
    else None
  }

  /**
   * `datetime.strptime(s, "%Y-%m-%d").date()`: `None` where Python raises
   * `ValueError`. The year is exactly four digits; month and day may be
   * unpadded (and the day space-padded); nothing may follow the day; and the
   * result must be a real calendar date.
   */
  function Parse(s: string): (r: Option<Date>)
    ensures r.Some? ==> Valid(r.value)
  {
    if |s| < 8 || !AllDigits(s[..4]) || s[4] != '-' then None
    else
      var rest := s[5..];
      // the month takes one or two characters and is followed by the second '-'
      var dash := if rest[1] == '-' then 1 else 2;
      if rest[dash] != '-' then None
      else
        match (MonthToken(rest[..dash]), DayToken(rest[dash + 1..]))
        case (Some(m), Some(d)) =>
          var date := Date(Value(s[..4]), m, d);
          if Valid(date) then Some(date) else None
        case _ => None
  }

  // ---- isoformat ----

  /** `date.isoformat()`: `YYYY-MM-DD`, every part zero-padded. */
  function Format(d: Date): (s: string)
    requires Valid(d)
    ensures |s| == 10 && s[4] == '-' && s[7] == '-'
  {
    Digits(d.year, 4) + "-" + Digits(d.month, 2) + "-" + Digits(d.day, 2)
  }

  // ---- lemmas ----

  lemma {:induction false} DigitsValue(n: nat, w: nat)
    requires n < Pow10(w)
    ensures Value(Digits(n, w)) == n
  {
    if w > 0 {
      var s := Digits(n, w);
      DigitsValue(n / 10, w - 1);
      assert s[..|s| - 1] == Digits(n / 10, w - 1);
    }
  }

  lemma DigitsInjective(x: nat, y: nat, w: nat)
    requires x < Pow10(w) && y < Pow10(w)
    ensures Digits(x, w) == Digits(y, w) <==> x == y
  {
    DigitsValue(x, w);
    DigitsValue(y, w);
  }

  /** On zero-padded numbers of one width, string order is numeric order. */
  lemma {:induction false} DigitsOrder(x: nat, y: nat, w: nat)
    requires x < Pow10(w) && y < Pow10(w)
    ensures StringOrder.Less(Digits(x, w), Digits(y, w)) <==> x < y
  {
    if w == 0 {
      StringOrder.LessIrreflexive([]);
    } else {
      var hx, hy := Digits(x / 10, w - 1), Digits(y / 10, w - 1);
      DigitsOrder(x / 10, y / 10, w - 1);
      DigitsInjective(x / 10, y / 10, w - 1);
      StringOrder.LessAppend(hx, hy, [DigitChar(x % 10)], [DigitChar(y % 10)]);
      assert StringOrder.Less([DigitChar(x % 10)], [DigitChar(y % 10)]) <==> x % 10 < y % 10;
      assert x == 10 * (x / 10) + x % 10 && y == 10 * (y / 10) + y % 10;
    }
  }

  /** Reading what `isoformat` wrote gives back the same date. */
  lemma ParseFormat(d: Date)
    requires Valid(d)
    ensures Parse(Format(d)) == Some(d)
  {
    var y, m, dd := Digits(d.year, 4), Digits(d.month, 2), Digits(d.day, 2);
    var s := Format(d);
    DigitsValue(d.year, 4);
    DigitsValue(d.month, 2);
    DigitsValue(d.day, 2);
    assert s[..4] == y;
    var rest := s[5..];
    assert rest == m + "-" + dd;
    assert rest[1] == m[1] && IsDigit(m[1]);
    assert rest[..2] == m && rest[3..] == dd;
    assert MonthToken(m) == Some(d.month);
    assert DayToken(dd) == Some(d.day);
  }

  lemma FormatInjective(a: Date, b: Date)
    requires Valid(a) && Valid(b)
    ensures Format(a) == Format(b) <==> a == b
  {
    ParseFormat(a);
    ParseFormat(b);
  }

  /** String order on `isoformat` output is chronological order. */
  lemma FormatOrder(a: Date, b: Date)
    requires Valid(a) && Valid(b)
    ensures StringOrder.Less(Format(a), Format(b)) <==> Before(a, b)
  {
    var ya, yb := Digits(a.year, 4), Digits(b.year, 4);
    var ma, mb := Digits(a.month, 2), Digits(b.month, 2);
    var da, db := Digits(a.day, 2), Digits(b.day, 2);
    assert Format(a) == ya + ("-" + (ma + ("-" + da)));
    assert Format(b) == yb + ("-" + (mb + ("-" + db)));
    StringOrder.LessAppend(ya, yb, "-" + (ma + ("-" + da)), "-" + (mb + ("-" + db)));
    StringOrder.LessAppend("-", "-", ma + ("-" + da), mb + ("-" + db));
    StringOrder.LessIrreflexive("-");
    StringOrder.LessAppend(ma, mb, "-" + da, "-" + db);
    StringOrder.LessAppend("-", "-", da, db);
    DigitsOrder(a.year, b.year, 4);
    DigitsInjective(a.year, b.year, 4);
    DigitsOrder(a.month, b.month, 2);
    DigitsInjective(a.month, b.month, 2);
    DigitsOrder(a.day, b.day, 2);
  }

  /** `a <= b` on `isoformat` strings is `not b < a` on dates. */
  lemma FormatOrderEq(a: Date, b: Date)
    requires Valid(a) && Valid(b)
    ensures StringOrder.LessEq(Format(a), Format(b)) <==> !Before(b, a)
  {
    FormatOrder(a, b);
    FormatInjective(a, b);
  }
}
