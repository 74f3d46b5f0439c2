/**
 * Calendar dates as the booking form's date inputs carry them: the strings
 * `YYYY-MM-DD` that `new Date(value)` reads and that `toISOString().split('T')[0]`
 * writes back into the `min` attributes. A date is reduced to a day number for
 * comparison; DayNumberOrder and NextDateIsNextDay show the day number counts
 * calendar days, so comparing day numbers compares the instants JavaScript compares.
 */
module Calendar {
  import opened Wrappers
  import opened Text

  datatype Date = Date(year: nat, month: nat, day: nat)

  predicate IsLeapYear(y: nat) {
    y % 4 == 0 && (y % 100 != 0 || y % 400 == 0)
  }

  function DaysInYear(y: nat): nat {
    if IsLeapYear(y) then 366 else 365
  }

  function DaysInMonth(y: nat, m: nat): nat
    requires 1 <= m <= 12
  {
    if m == 2 then (if IsLeapYear(y) then 29 else 28)
    else if m == 4 || m == 6 || m == 9 || m == 11 then 30
    else 31
  }

  predicate IsValidDate(d: Date) {
    1 <= d.month <= 12 && 1 <= d.day <= DaysInMonth(d.year, d.month)
  }

  /** A date the clock can return. */
  type ValidDate = d: Date | IsValidDate(d) witness Date(1970, 1, 1)

  /** Days in the years 0 .. y - 1 of the proleptic Gregorian calendar. */
  function DaysBeforeYear(y: nat): nat {
    if y == 0 then 0 else DaysBeforeYear(y - 1) + DaysInYear(y - 1)
  }

  /** Days in the months 1 .. m - 1 of year y. */
  function DaysBeforeMonth(y: nat, m: nat): nat
    requires 1 <= m <= 12
  {
    var leap := if IsLeapYear(y) then 1 else 0;
    if m == 1 then 0
    else if m == 2 then 31
    else leap + [59, 90, 120, 151, 181, 212, 243, 273, 304, 334][m - 3]
  }

  /** Each month starts where the one before it ends, and December ends with the year. */
  lemma {:induction false} DaysBeforeMonthStep(y: nat, m: nat)
    requires 1 <= m <= 12
    ensures m < 12 ==> DaysBeforeMonth(y, m + 1) == DaysBeforeMonth(y, m) + DaysInMonth(y, m)
    ensures m == 12 ==> DaysBeforeMonth(y, m) + DaysInMonth(y, m) == DaysInYear(y)
  {
  }

  /** Days from 0000-01-01 to d. */
  function DayNumber(d: Date): int
    requires IsValidDate(d)
  {
    DaysBeforeYear(d.year) + DaysBeforeMonth(d.year, d.month) + d.day - 1
  }

  /** Calendar order: by year, then month, then day. */
  predicate Before(a: Date, b: Date) {
    || a.year < b.year
    || (a.year == b.year && a.month < b.month)
    || (a.year == b.year && a.month == b.month && a.day < b.day)
  }

  lemma {:induction false} DaysBeforeYearGrows(y: nat, z: nat)
    requires y <= z
    ensures DaysBeforeYear(y) <= DaysBeforeYear(z)
  {
    if y < z {
      DaysBeforeYearGrows(y, z - 1);
    }
  }

  lemma {:induction false} DaysBeforeMonthGrows(y: nat, m: nat, n: nat)
    requires 1 <= m < n <= 12
    ensures DaysBeforeMonth(y, m) + DaysInMonth(y, m) <= DaysBeforeMonth(y, n)
  {
    DaysBeforeMonthStep(y, n - 1);
    if m + 1 < n {
      DaysBeforeMonthGrows(y, m, n - 1);
    }
  }

  lemma {:induction false} EarlierDayNumber(a: Date, b: Date)
    requires IsValidDate(a) && IsValidDate(b) && Before(a, b)
    ensures DayNumber(a) < DayNumber(b)
  {
    if a.year < b.year {
      DaysBeforeMonthStep(a.year, 12);
      if a.month < 12 {
        DaysBeforeMonthGrows(a.year, a.month, 12);
      }
      DaysBeforeYearGrows(a.year + 1, b.year);
    } else if a.month < b.month {
      DaysBeforeMonthGrows(a.year, a.month, b.month);
    }
  }

  /** Day numbers are ordered exactly as the calendar dates they number. */
  lemma {:induction false} DayNumberOrder(a: Date, b: Date)
    requires IsValidDate(a) && IsValidDate(b)
    ensures DayNumber(a) < DayNumber(b) <==> Before(a, b)
    ensures DayNumber(a) == DayNumber(b) <==> a == b
  {
    if Before(a, b) {
      EarlierDayNumber(a, b);
    } else if Before(b, a) {
      EarlierDayNumber(b, a);
    }
  }

  /** The calendar date after d. */
  function NextDate(d: Date): (r: Date)
    requires IsValidDate(d)
    ensures IsValidDate(r) && Before(d, r)
  {
    if d.day < DaysInMonth(d.year, d.month) then Date(d.year, d.month, d.day + 1)
    else if d.month < 12 then Date(d.year, d.month + 1, 1)
    else Date(d.year + 1, 1, 1)
  }

  /** Adding one day with `setDate(getDate() + 1)` moves the day number up by exactly one. */
  lemma {:induction false} NextDateIsNextDay(d: Date)
    requires IsValidDate(d)
    ensures DayNumber(NextDate(d)) == DayNumber(d) + 1
  {
    DaysBeforeMonthStep(d.year, d.month);
  }

  function DigitValue(c: char): nat
    requires IsAsciiDigit(c)
  {
    c as int - '0' as int
  }

  function DigitChar(n: nat): (c: char)
    requires n < 10
    ensures IsAsciiDigit(c) && DigitValue(c) == n
  {
    ('0' as int + n) as char
  }

  /** The value of a string of decimal digits. */
  function Number(s: string): nat
    requires AllDigits(s)
  {
    if s == [] then 0 else 10 * Number(s[..|s| - 1]) + DigitValue(s[|s| - 1])
  }

  /** `n` written with exactly `width` decimal digits, zero-padded on the left. */
  function Padded(n: nat, width: nat): (s: string)
    ensures |s| == width && AllDigits(s)
  {
    if width == 0 then [] else Padded(n / 10, width - 1) + [DigitChar(n % 10)]
  }

  function Pow10(w: nat): (p: nat)
    ensures p >= 1
  {
    if w == 0 then 1 else 10 * Pow10(w - 1)
  }

  /** Reading back a zero-padded number gives the number, when it fits the width. */
  lemma {:induction false} NumberOfPadded(n: nat, width: nat)
    requires n < Pow10(width)
    ensures Number(Padded(n, width)) == n
  {
    if width > 0 {
      var s := Padded(n, width);
      assert s[..|s| - 1] == Padded(n / 10, width - 1);
      NumberOfPadded(n / 10, width - 1);
    }
  }

  /** A digit string is its own zero-padded form: writing its value back with as many
      digits as it has gives the string again, leading zeros included. */
  lemma {:induction false} PaddedOfNumber(t: string)
    requires AllDigits(t)
    ensures Padded(Number(t), |t|) == t
  {
    if t != [] {
      var u, c := t[..|t| - 1], t[|t| - 1];
      assert AllDigits(u) by {
        forall i | 0 <= i < |u| ensures IsAsciiDigit(u[i]) { assert u[i] == t[i]; }
      }
      var n := Number(t);
      assert n / 10 == Number(u) && n % 10 == DigitValue(c);
      PaddedOfNumber(u);
      assert DigitChar(DigitValue(c)) == c;
      assert t == u + [c];
    }
  }

  /** A string of w digits is worth less than 10^w. */
  lemma {:induction false} NumberBound(t: string)
    requires AllDigits(t)
    ensures Number(t) < Pow10(|t|)
  {
    if t != [] {
      var u := t[..|t| - 1];
      assert AllDigits(u) by {
        forall i | 0 <= i < |u| ensures IsAsciiDigit(u[i]) { assert u[i] == t[i]; }
      }
      NumberBound(u);
    }
  }

  /** `new Date(s)` for a date-only string: the date that `s` names, when `s` has the
      form `YYYY-MM-DD` with a real month and day; nothing otherwise (an Invalid Date).
      ParseIsoDateIff characterises the result completely. */
  function ParseIsoDate(s: string): (r: Option<Date>)
    ensures r.Some? ==> IsValidDate(r.value) && r.value.year <= 9999
  {
    if |s| == 10 && s[4] == '-' && s[7] == '-'
       && AllDigits(s[..4]) && AllDigits(s[5..7]) && AllDigits(s[8..])
    then
      var d := Date(Number(s[..4]), Number(s[5..7]), Number(s[8..]));
      ParsedIsFormatted(s, d);
      if IsValidDate(d) then Some(d) else None
    else None
  }

  lemma {:induction false} ParsedIsFormatted(s: string, d: Date)
    requires |s| == 10 && s[4] == '-' && s[7] == '-'
    requires AllDigits(s[..4]) && AllDigits(s[5..7]) && AllDigits(s[8..])
    requires d == Date(Number(s[..4]), Number(s[5..7]), Number(s[8..]))
    ensures d.year <= 9999 && FormatIsoDate(d) == s
  {
    NumberBound(s[..4]);
    assert Pow10(4) == 10000;
    PaddedOfNumber(s[..4]);
    PaddedOfNumber(s[5..7]);
    PaddedOfNumber(s[8..]);
    assert s == s[..4] + "-" + s[5..7] + "-" + s[8..];
  }

  /** The strings `new Date` reads as a date are exactly the `toISOString` forms of
      the real dates with four-digit years, and each names its own date. */
  lemma {:induction false} ParseIsoDateIff(s: string, d: Date)
    ensures ParseIsoDate(s) == Some(d) <==> IsValidDate(d) && d.year <= 9999 && s == FormatIsoDate(d)
  {
    if IsValidDate(d) && d.year <= 9999 && s == FormatIsoDate(d) {
      ParseFormatted(d);
    } else if ParseIsoDate(s) == Some(d) {
      ParsedIsFormatted(s, d);
    }
  }

  /** The day number of the date in an input's value, when there is one;
      ParseDayIff and NoParseDayIff characterise it without reference to the parser. */
  function ParseDay(s: string): (r: Option<int>)
    ensures r.Some? <==> ParseIsoDate(s).Some?
    ensures r.Some? ==> r.value == DayNumber(ParseIsoDate(s).value)
  {
    match ParseIsoDate(s)
    case Some(d) => Some(DayNumber(d))
    case None => None
  }

  /** A value has the day number of a real date exactly when it is that date's
      `toISOString` form, with a four-digit year. */
  lemma {:induction false} ParseDayIff(s: string, d: Date)
    requires IsValidDate(d)
    ensures ParseDay(s) == Some(DayNumber(d)) <==> d.year <= 9999 && s == FormatIsoDate(d)
  {
    ParseIsoDateIff(s, d);
    if ParseDay(s) == Some(DayNumber(d)) {
      var e := ParseIsoDate(s).value;
      DayNumberOrder(d, e);
      ParseIsoDateIff(s, e);
    }
  }

  /** The values without a day number are exactly those that are not the
      `toISOString` form of any real date with a four-digit year. */
  lemma {:induction false} NoParseDayIff(s: string)
    ensures ParseDay(s).None? <==> forall d :: IsValidDate(d) && d.year <= 9999 ==> s != FormatIsoDate(d)
  {
    if ParseDay(s).Some? {
      var e := ParseIsoDate(s).value;
      ParseIsoDateIff(s, e);
    } else {
      forall d | IsValidDate(d) && d.year <= 9999 ensures s != FormatIsoDate(d) {
        ParseIsoDateIff(s, d);
      }
    }
  }

  /** The date part of `toISOString()`: four-digit years as `YYYY-MM-DD`, later years in
      the expanded `+YYYYYY-MM-DD` form. */
  function FormatIsoDate(d: Date): (r: string)
    ensures |r| == if d.year <= 9999 then 10 else 13
    ensures r[|r| - 6] == '-' && r[|r| - 3] == '-'
    ensures d.year > 9999 <==> r[0] == '+'
  {
    (if d.year <= 9999 then Padded(d.year, 4) else "+" + Padded(d.year, 6))
    + "-" + Padded(d.month, 2) + "-" + Padded(d.day, 2)
  }

  /** Reading back what `toISOString` wrote gives the same date, for four-digit years. */
  lemma {:induction false} ParseFormatted(d: Date)
    requires IsValidDate(d) && d.year <= 9999
    ensures ParseIsoDate(FormatIsoDate(d)) == Some(d)
  {
    var y, m, dd := Padded(d.year, 4), Padded(d.month, 2), Padded(d.day, 2);
    var s := FormatIsoDate(d);
    assert s == y + "-" + m + "-" + dd;
    assert s[..4] == y && s[5..7] == m && s[8..] == dd;
    NumberOfPadded(d.year, 4);
    NumberOfPadded(d.month, 2);
    NumberOfPadded(d.day, 2);
  }
}
