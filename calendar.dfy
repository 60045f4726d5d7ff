/**
 * Epoch seconds to an RFC 3339 date-time (section 5.6 of RFC 3339) in UTC at
 * whole-second precision with the `Z` suffix, on the proleptic Gregorian
 * calendar, for the years 0000 to 9999 that render in four digits.
 *
 * `ToDateTime` splits an instant into civil fields with integer arithmetic:
 * whole 400-year cycles of 146097 days first, then the remaining years and
 * months one at a time. `EpochSeconds` is the independent reading of civil
 * fields back into seconds, and `ParseRfc3339` reads a rendered string.
 */
module Calendar {
  import opened Errors
  import Decimal

  const SecondsPerDay: int := 86400
  const DaysPerCycle: int := 146097   // days in 400 Gregorian years

  /** The instants whose year has four digits: 0000-01-01T00:00:00Z to 9999-12-31T23:59:59Z. */
  const MinRenderable: int := -62167219200
  const MaxRenderable: int := 253402300799

  predicate Renderable(t: int)
  {
    MinRenderable <= t <= MaxRenderable
  }

  predicate IsLeapYear(y: int)
  {
    y % 4 == 0 && (y % 100 != 0 || y % 400 == 0)
  }

  function YearLength(y: int): int
  {
    if IsLeapYear(y) then 366 else 365
  }

  /** The length of month `m` in a leap or a common year. */
  function MonthDays(leap: bool, m: int): int
    requires 1 <= m <= 12
  {
    if m == 2 then (if leap then 29 else 28)
    else if m == 4 || m == 6 || m == 9 || m == 11 then 30
    else 31
  }

  function MonthLength(y: int, m: int): int
    requires 1 <= m <= 12
  {
    MonthDays(IsLeapYear(y), m)
  }

  /** Days in a common year before the first of each month; the last entry is the whole year. */
  const CommonDaysBefore: seq<int> := [0, 31, 59, 90, 120, 151, 181, 212, 243, 273, 304, 334, 365]

  /** Days from January 1 to the first day of month `m` (13 meaning the next January 1). */
  function DaysBeforeMonth(leap: bool, m: int): int
    requires 1 <= m <= 13
  {
    CommonDaysBefore[m - 1] + (if leap && m > 2 then 1 else 0)
  }

  /** The table agrees with the month lengths, and the months fill the year. */
  lemma DaysBeforeMonthStep(leap: bool, m: int)
    requires 1 <= m <= 12
    ensures DaysBeforeMonth(leap, 1) == 0
    ensures DaysBeforeMonth(leap, m + 1) == DaysBeforeMonth(leap, m) + MonthDays(leap, m)
    ensures DaysBeforeMonth(leap, 13) == if leap then 366 else 365
  {
  }

  /** The leap years in 1 .. y-1, counted by the 4/100/400 rule (relative for y <= 0). */
  function LeapYearsBefore(y: int): int
  {
    (y - 1) / 4 - (y - 1) / 100 + (y - 1) / 400
  }

  /** Days from 1970-01-01 to January 1 of year `y`; negative before 1970. */
  function DaysBeforeYear(y: int): int
  {
    365 * (y - 1970) + LeapYearsBefore(y) - LeapYearsBefore(1970)
  }

  lemma DivStep(y: int, k: int)
    requires k == 4 || k == 100 || k == 400
    ensures y / k == (y - 1) / k + (if y % k == 0 then 1 else 0)
  {
    var q, r := (y - 1) / k, (y - 1) % k;
    assert y == k * q + r + 1;
    if r + 1 == k {
      assert y == k * (q + 1);
    } else {
      assert y == k * q + (r + 1);
    }
  }

  lemma DivisibleBy(y: int)
    ensures y % 100 == 0 ==> y % 4 == 0
    ensures y % 400 == 0 ==> y % 100 == 0
  {
    if y % 100 == 0 {
      var q := y / 100;
      assert y == 4 * (25 * q);
    }
    if y % 400 == 0 {
      var q := y / 400;
      assert y == 100 * (4 * q);
    }
  }

  lemma LeapYearsStep(y: int)
    ensures LeapYearsBefore(y + 1) == LeapYearsBefore(y) + (if IsLeapYear(y) then 1 else 0)
  {
    DivStep(y, 4);
    DivStep(y, 100);
    DivStep(y, 400);
    DivisibleBy(y);
  }

  /**
   * The closed formula counts days year by year: it is zero at 1970 and grows
   * by each year's length, 365 or 366 by the leap-year rule.
   */
  lemma DaysBeforeYearStep(y: int)
    ensures DaysBeforeYear(1970) == 0
    ensures DaysBeforeYear(y + 1) == DaysBeforeYear(y) + YearLength(y)
  {
    LeapYearsStep(y);
  }

  /** Every span of 400 consecutive years holds exactly 146097 days. */
  lemma CycleLength(y: int)
    ensures DaysBeforeYear(y + 400) == DaysBeforeYear(y) + DaysPerCycle
  {
    var x := y - 1;
    assert (x + 400) / 4 == x / 4 + 100;
    assert (x + 400) / 100 == x / 100 + 4;
    assert (x + 400) / 400 == x / 400 + 1;
  }

  /** The 400-year cycles counted from 1970 start `146097 * q` days after the epoch. */
  lemma CycleStart(q: int)
    ensures DaysBeforeYear(1970 + 400 * q) == DaysPerCycle * q
  {
    var x := 1969 + 400 * q;
    assert x / 4 == 492 + 100 * q;
    assert x / 100 == 19 + 4 * q;
    assert x / 400 == 4 + q;
  }

  lemma {:induction false} DaysBeforeYearMonotone(a: int, b: int)
    requires a <= b
    ensures DaysBeforeYear(a) <= DaysBeforeYear(b)
    decreases b - a
  {
    if a < b {
      DaysBeforeYearMonotone(a, b - 1);
      DaysBeforeYearStep(b - 1);
    }
  }

  /* ---------- Civil fields of an instant ---------- */

  datatype DateTime = DateTime(year: int, month: int, day: int, hour: int, minute: int, second: int)

  predicate ValidDateTime(dt: DateTime)
  {
    && 1 <= dt.month <= 12
    && 1 <= dt.day <= MonthLength(dt.year, dt.month)
    && 0 <= dt.hour < 24 && 0 <= dt.minute < 60 && 0 <= dt.second < 60
  }

  /** The number of days from 1970-01-01 to the civil date. */
  function DayNumber(y: int, m: int, d: int): int
    requires 1 <= m <= 12
  {
    DaysBeforeYear(y) + DaysBeforeMonth(IsLeapYear(y), m) + (d - 1)
  }

  /** Seconds from 1970-01-01T00:00:00Z to the civil date-time. */
  function EpochSeconds(dt: DateTime): int
    requires 1 <= dt.month <= 12
  {
    DayNumber(dt.year, dt.month, dt.day) * SecondsPerDay + dt.hour * 3600 + dt.minute * 60 + dt.second
  }

  /** From January 1 of `y`, step over whole years until `d` days fall inside one. */
  function WalkYears(y: int, d: int): (r: (int, int))
    requires d >= 0
    ensures 0 <= r.1 < YearLength(r.0)
    decreases d
  {
    if d < YearLength(y) then (y, d) else WalkYears(y + 1, d - YearLength(y))
  }

  /** From the first of month `m`, step over whole months until `d` days fall inside one. */
  function WalkMonths(leap: bool, m: int, d: int): (r: (int, int))
    requires 1 <= m <= 12 && d >= 0
    ensures 1 <= r.0 <= 12 && 1 <= r.1
    decreases 12 - m
  {
    if d < MonthDays(leap, m) || m == 12 then (m, d + 1) else WalkMonths(leap, m + 1, d - MonthDays(leap, m))
  }

  datatype Date = Date(year: int, month: int, day: int)

  /** The civil date `days` days after 1970-01-01. */
  function CivilDate(days: int): (r: Date)
    ensures 1 <= r.month <= 12
  {
    var yd := WalkYears(1970 + 400 * (days / DaysPerCycle), days % DaysPerCycle);
    var md := WalkMonths(IsLeapYear(yd.0), 1, yd.1);
    Date(yd.0, md.0, md.1)
  }

  /** The civil UTC date-time of `t` seconds after the epoch. */
  function ToDateTime(t: int): (dt: DateTime)
    ensures 0 <= dt.hour < 24 && 0 <= dt.minute < 60 && 0 <= dt.second < 60
  {
    var date, secs := CivilDate(t / SecondsPerDay), t % SecondsPerDay;
    var rest := secs % 3600;
    DateTime(date.year, date.month, date.day, secs / 3600, rest / 60, rest % 60)
  }

  lemma {:induction false} WalkYearsLands(y: int, d: int)
    requires d >= 0
    ensures DaysBeforeYear(WalkYears(y, d).0) + WalkYears(y, d).1 == DaysBeforeYear(y) + d
    decreases d
  {
    if d >= YearLength(y) {
      DaysBeforeYearStep(y);
      WalkYearsLands(y + 1, d - YearLength(y));
    }
  }

  lemma {:induction false} WalkMonthsLands(leap: bool, m: int, d: int)
    requires 1 <= m <= 12 && 0 <= d < DaysBeforeMonth(leap, 13) - DaysBeforeMonth(leap, m)
    ensures WalkMonths(leap, m, d).1 <= MonthDays(leap, WalkMonths(leap, m, d).0)
    ensures DaysBeforeMonth(leap, WalkMonths(leap, m, d).0) + WalkMonths(leap, m, d).1 - 1
            == DaysBeforeMonth(leap, m) + d
    decreases 12 - m
  {
    DaysBeforeMonthStep(leap, m);
    if !(d < MonthDays(leap, m) || m == 12) {
      WalkMonthsLands(leap, m + 1, d - MonthDays(leap, m));
    }
  }

  /** The year of day `days`, and the day within it. */
  lemma CivilYear(days: int)
    ensures var yd := WalkYears(1970 + 400 * (days / DaysPerCycle), days % DaysPerCycle);
      DaysBeforeYear(yd.0) + yd.1 == days && 0 <= yd.1 < YearLength(yd.0)
  {
    var q := days / DaysPerCycle;
    CycleStart(q);
    WalkYearsLands(1970 + 400 * q, days % DaysPerCycle);
  }

  /** The civil date is a real date, and it lies exactly `days` days after 1970-01-01. */
  lemma CivilDateCorrect(days: int)
    ensures var date := CivilDate(days);
      1 <= date.day <= MonthLength(date.year, date.month)
      && DayNumber(date.year, date.month, date.day) == days
      && DaysBeforeYear(date.year) <= days < DaysBeforeYear(date.year + 1)
  {
    var yd := WalkYears(1970 + 400 * (days / DaysPerCycle), days % DaysPerCycle);
    CivilYear(days);
    DaysBeforeYearStep(yd.0);
    var leap := IsLeapYear(yd.0);
    DaysBeforeMonthStep(leap, 1);
    WalkMonthsLands(leap, 1, yd.1);
  }

  lemma TimeOfDay(t: int)
    ensures var secs := t % SecondsPerDay; var rest := secs % 3600;
      t == (t / SecondsPerDay) * SecondsPerDay + secs / 3600 * 3600 + rest / 60 * 60 + rest % 60
      && 0 <= secs / 3600 < 24 && 0 <= rest / 60 < 60
  {
    var secs := t % SecondsPerDay;
    var rest := secs % 3600;
    assert t == (t / SecondsPerDay) * SecondsPerDay + secs;
    assert secs == secs / 3600 * 3600 + rest;
    assert rest == rest / 60 * 60 + rest % 60;
  }

  /**
   * The civil fields are a valid date-time, and they name the instant exactly
   * `t` seconds after 1970-01-01T00:00:00Z.
   */
  lemma ToDateTimeCorrect(t: int)
    ensures ValidDateTime(ToDateTime(t))
    ensures EpochSeconds(ToDateTime(t)) == t
  {
    CivilDateCorrect(t / SecondsPerDay);
    TimeOfDay(t);
  }

  /** The instants with four-digit years are exactly those whose year is 0000 to 9999. */
  lemma ToDateTimeYear(t: int)
    ensures Renderable(t) <==> 0 <= ToDateTime(t).year <= 9999
  {
    var days := t / SecondsPerDay;
    CivilDateCorrect(days);
    var y := CivilDate(days).year;
    assert ToDateTime(t).year == y;
    assert DaysBeforeYear(0) == -719528;
    assert DaysBeforeYear(10000) == 2932897;
    assert Renderable(t) <==> -719528 <= days < 2932897;
    if y >= 10000 {
      DaysBeforeYearMonotone(10000, y);
    }
    if y < 0 {
      DaysBeforeYearMonotone(y + 1, 0);
    }
    if 0 <= y <= 9999 {
      DaysBeforeYearMonotone(0, y);
      DaysBeforeYearMonotone(y + 1, 10000);
    }
  }

  /* ---------- Rendering and reading the text form ---------- */

  /** A field zero-padded on the left to four or to two digits. */
  function FourDigits(n: nat): (s: string)
    requires n < 10000
    ensures |s| == 4
  {
    [Decimal.DigitChar(n / 10 / 10 / 10), Decimal.DigitChar(n / 10 / 10 % 10),
     Decimal.DigitChar(n / 10 % 10), Decimal.DigitChar(n % 10)]
  }

  function TwoDigits(n: nat): (s: string)
    requires n < 100
    ensures |s| == 2
  {
    [Decimal.DigitChar(n / 10), Decimal.DigitChar(n % 10)]
  }

  lemma DigitCharValue(d: nat)
    requires d < 10
    ensures Decimal.IsDigit(Decimal.DigitChar(d)) && Decimal.DigitValue(Decimal.DigitChar(d)) == d
  {
  }

  lemma FourDigitsValue(n: nat)
    requires n < 10000
    ensures Decimal.AllDigits(FourDigits(n)) && Decimal.Value(FourDigits(n)) == n
  {
    var s := FourDigits(n);
    var a := n / 10;
    var c := a / 10;
    var d0, d1, d2, d3 := c / 10, c % 10, a % 10, n % 10;
    DigitCharValue(d0);
    DigitCharValue(d1);
    DigitCharValue(d2);
    DigitCharValue(d3);
    assert s[1..] == [s[1], s[2], s[3]] && s[1..][1..] == [s[2], s[3]];
    assert s[1..][1..][1..] == [s[3]] && s[1..][1..][1..][1..] == [];
    calc {
      Decimal.Value(s);
      Decimal.Horner(d0, s[1..]);
      Decimal.Horner(d0 * 10 + d1, s[1..][1..]);
      Decimal.Horner(c * 10 + d2, s[1..][1..][1..]);
      Decimal.Horner(a * 10 + d3, []);
    }
  }

  lemma TwoDigitsValue(n: nat)
    requires n < 100
    ensures Decimal.AllDigits(TwoDigits(n)) && Decimal.Value(TwoDigits(n)) == n
  {
    var s := TwoDigits(n);
    DigitCharValue(n / 10);
    DigitCharValue(n % 10);
    assert s[1..] == [s[1]] && s[1..][1..] == [];
    calc {
      Decimal.Value(s);
      Decimal.Horner(n / 10, s[1..]);
      Decimal.Horner(n / 10 * 10 + n % 10, []);
    }
  }

  predicate FourDigitYear(dt: DateTime)
  {
    0 <= dt.year <= 9999 && ValidDateTime(dt)
  }

  /** `YYYY-MM-DDTHH:MM:SSZ` for the given civil fields. */
  function Format(dt: DateTime): (s: string)
    requires FourDigitYear(dt)
  {
    var y, mo, d := FourDigits(dt.year), TwoDigits(dt.month), TwoDigits(dt.day);
    var h, mi, se := TwoDigits(dt.hour), TwoDigits(dt.minute), TwoDigits(dt.second);
    [y[0], y[1], y[2], y[3], '-', mo[0], mo[1], '-', d[0], d[1], 'T',
     h[0], h[1], ':', mi[0], mi[1], ':', se[0], se[1], 'Z']
  }

  /** `YYYY-MM-DDTHH:MM:SSZ`: the RFC 3339 form of `t` with whole seconds and the `Z` offset. */
  function Rfc3339(t: int): (s: string)
    requires Renderable(t)
    ensures ParseRfc3339(s) == Some(t)
  {
    ToDateTimeCorrect(t);
    ToDateTimeYear(t);
    ParseFormat(ToDateTime(t));
    Format(ToDateTime(t))
  }

  predicate DigitsAt(s: string, from: nat, to: nat)
    requires from <= to <= |s|
  {
    Decimal.AllDigits(s[from..to])
  }

  /**
   * Reads `YYYY-MM-DDTHH:MM:SSZ` as seconds after the epoch, or None when the
   * text is not of that form or does not name a real date and time of day.
   */
  function ParseRfc3339(s: string): Option<int>
  {
    if |s| != 20 || s[4] != '-' || s[7] != '-' || s[10] != 'T' || s[13] != ':' || s[16] != ':' || s[19] != 'Z'
    then None
    else if !(DigitsAt(s, 0, 4) && DigitsAt(s, 5, 7) && DigitsAt(s, 8, 10)
              && DigitsAt(s, 11, 13) && DigitsAt(s, 14, 16) && DigitsAt(s, 17, 19))
    then None
    else
      var dt := DateTime(Decimal.Value(s[0..4]), Decimal.Value(s[5..7]), Decimal.Value(s[8..10]),
                         Decimal.Value(s[11..13]), Decimal.Value(s[14..16]), Decimal.Value(s[17..19]));
      if ValidDateTime(dt) then Some(EpochSeconds(dt)) else None
  }

  /** Where each field and separator of the formatted text sits. */
  lemma FormatLayout(dt: DateTime)
    requires FourDigitYear(dt)
    ensures var s := Format(dt);
      && |s| == 20
      && s[4] == '-' && s[7] == '-' && s[10] == 'T' && s[13] == ':' && s[16] == ':' && s[19] == 'Z'
      && s[0..4] == FourDigits(dt.year) && s[5..7] == TwoDigits(dt.month) && s[8..10] == TwoDigits(dt.day)
      && s[11..13] == TwoDigits(dt.hour) && s[14..16] == TwoDigits(dt.minute) && s[17..19] == TwoDigits(dt.second)
  {
    var s := Format(dt);
    var y, mo, d := FourDigits(dt.year), TwoDigits(dt.month), TwoDigits(dt.day);
    var h, mi, se := TwoDigits(dt.hour), TwoDigits(dt.minute), TwoDigits(dt.second);
    assert s[0..4] == [y[0], y[1], y[2], y[3]] == y;
    assert s[5..7] == [mo[0], mo[1]] == mo;
    assert s[8..10] == [d[0], d[1]] == d;
    assert s[11..13] == [h[0], h[1]] == h;
    assert s[14..16] == [mi[0], mi[1]] == mi;
    assert s[17..19] == [se[0], se[1]] == se;
  }

  /** Reading formatted civil fields gives back the instant they name. */
  lemma ParseFormat(dt: DateTime)
    requires FourDigitYear(dt)
    ensures ParseRfc3339(Format(dt)) == Some(EpochSeconds(dt))
  {
    FormatLayout(dt);
    FourDigitsValue(dt.year);
    TwoDigitsValue(dt.month);
    TwoDigitsValue(dt.day);
    TwoDigitsValue(dt.hour);
    TwoDigitsValue(dt.minute);
    TwoDigitsValue(dt.second);
  }

  /**
   * Reading the rendered text gives back the instant: the text names the
   * moment exactly `t` seconds after 1970-01-01T00:00:00Z.
   */
  /** The text is twenty characters and never has a fractional second: its last character is `Z`. */
  lemma Rfc3339Shape(t: int)
    requires Renderable(t)
    ensures var s := Rfc3339(t);
      |s| == 20 && s[4] == '-' && s[7] == '-' && s[10] == 'T' && s[13] == ':' && s[16] == ':'
      && s[19] == 'Z' && '.' !in s
  {
    ToDateTimeCorrect(t);
    ToDateTimeYear(t);
    var dt := ToDateTime(t);
    FormatLayout(dt);
    FourDigitsValue(dt.year);
    TwoDigitsValue(dt.month);
    TwoDigitsValue(dt.day);
    TwoDigitsValue(dt.hour);
    TwoDigitsValue(dt.minute);
    TwoDigitsValue(dt.second);
    var s := Rfc3339(t);
    forall i | 0 <= i < |s| ensures s[i] != '.' {
      if i < 4 {
        assert s[i] == s[0..4][i];
      } else if 4 < i < 7 {
        assert s[i] == s[5..7][i - 5];
      } else if 7 < i < 10 {
        assert s[i] == s[8..10][i - 8];
      } else if 10 < i < 13 {
        assert s[i] == s[11..13][i - 11];
      } else if 13 < i < 16 {
        assert s[i] == s[14..16][i - 14];
      } else if 16 < i < 19 {
        assert s[i] == s[17..19][i - 17];
      }
    }
  }

  lemma Rfc3339Epoch()
    ensures Rfc3339(0) == "1970-01-01T00:00:00Z"
  {
    assert WalkYears(1970, 0) == (1970, 0);
    assert CivilDate(0) == Date(1970, 1, 1);
    assert ToDateTime(0) == DateTime(1970, 1, 1, 0, 0, 0);
    assert FourDigits(1970) == "1970";
    assert TwoDigits(1) == "01";
    assert TwoDigits(0) == "00";
  }

  /** Distinct instants render to distinct text. */
  lemma Rfc3339Injective(a: int, b: int)
    requires Renderable(a) && Renderable(b)
    ensures Rfc3339(a) == Rfc3339(b) <==> a == b
  {
  }
}
