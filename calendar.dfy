/**
 Proleptic Gregorian calendar arithmetic on day counts relative to the
 POSIX Epoch (day 0 is 1970-01-01), as Python's `datetime` and Spark's date
 functions use it. `CivilFromDays` and `DaysFromCivil` convert between day
 counts and (year, month, day); the weekday and ISO week-number functions are
 those Spark evaluates for `dayofweek` and `weekofyear`, each paired with an
 independent reference definition.
 */
module Calendar {

  datatype Date = Date(year: int, month: int, day: int)

  predicate IsLeapYear(y: int) {
    y % 4 == 0 && (y % 100 != 0 || y % 400 == 0)
  }

  function YearLength(y: int): int {
    if IsLeapYear(y) then 366 else 365
  }

  function DaysInMonth(y: int, m: int): (n: int)
    requires 1 <= m <= 12
    ensures 28 <= n <= 31
    ensures n == 29 <==> m == 2 && IsLeapYear(y)
  {
    if m == 2 then (if IsLeapYear(y) then 29 else 28)
    else if m == 4 || m == 6 || m == 9 || m == 11 then 30
    else 31
  }

  predicate IsValidDate(y: int, m: int, d: int) {
    1 <= m <= 12 && 1 <= d <= DaysInMonth(y, m)
  }

  /** Days of year `y` that precede the first of month `m`. */
  function DaysBeforeMonth(y: int, m: int): int
    requires 1 <= m <= 12
  {
    var leap := if IsLeapYear(y) then 1 else 0;
    if m == 1 then 0
    else if m == 2 then 31
    else if m == 3 then 59 + leap
    else if m == 4 then 90 + leap
    else if m == 5 then 120 + leap
    else if m == 6 then 151 + leap
    else if m == 7 then 181 + leap
    else if m == 8 then 212 + leap
    else if m == 9 then 243 + leap
    else if m == 10 then 273 + leap
    else if m == 11 then 304 + leap
    else 334 + leap
  }

  /** 1-based ordinal day of a date within its year. */
  function DayOfYear(y: int, m: int, d: int): int
    requires 1 <= m <= 12
  {
    DaysBeforeMonth(y, m) + d
  }

  /**
   Days from 0000-03-01 to the first of March of year `yp`: whole 400-year
   eras of 146097 days plus the years of the era, each of 365 days with one
   leap day every fourth year except at a century.
   */
  function MarchYearStart(yp: int): int {
    var era := yp / 400;
    var yoe := yp - era * 400;
    era * 146097 + 365 * yoe + yoe / 4 - yoe / 100
  }

  /** Days from 1970-01-01 to the given date (negative before the Epoch). */
  function DaysFromCivil(y: int, m: int, d: int): int
    requires 1 <= m <= 12
  {
    var yp := if m <= 2 then y - 1 else y;
    var mp := if m > 2 then m - 3 else m + 9;
    MarchYearStart(yp) + (153 * mp + 2) / 5 + d - 1 - 719468
  }

  function Jan1(y: int): int {
    DaysFromCivil(y, 1, 1)
  }

  /**
   Splits a day of a 400-year era (counted from 1 March of its first year)
   into the year of the era and the day of that March-based year: centuries
   of 36524 days (the last one 36525), four-year groups of 1461 days, years
   of 365 days with a leap day closing every fourth one.
   */
  function SplitDayOfEra(doe: int): (r: (int, int))
    requires 0 <= doe < 146097
    ensures 0 <= r.0 <= 399 && 0 <= r.1 <= 365
    ensures doe == 365 * r.0 + r.0 / 4 - r.0 / 100 + r.1
    ensures r.1 == 365 ==> (r.0 + 1) % 4 == 0 && ((r.0 + 1) % 100 != 0 || r.0 == 399)
  {
    var c := if doe / 36524 < 3 then doe / 36524 else 3;
    var r1 := doe - 36524 * c;
    assert r1 == 36524 ==> c == 3;
    var q := r1 / 1461;
    var r2 := r1 - 1461 * q;
    assert r2 == 1460 ==> q < 24 || c == 3;
    var yg := if r2 / 365 < 3 then r2 / 365 else 3;
    var yoe := 100 * c + 4 * q + yg;
    assert yoe / 4 == 25 * c + q;
    assert yoe / 100 == c;
    (yoe, r2 - 365 * yg)
  }

  /**
   Splits a day of a March-based year into the month counted from March
   (0..11) and the day of that month.
   */
  function SplitMarchYearDay(doy: int): (r: (int, int))
    requires 0 <= doy <= 365
    ensures 0 <= r.0 <= 11 && 1 <= r.1
    ensures doy == (153 * r.0 + 2) / 5 + r.1 - 1
    ensures r.0 < 11 ==> r.1 <= DaysInMonth(0, if r.0 < 10 then r.0 + 3 else r.0 - 9)
    ensures r.0 == 11 ==> r.1 == doy - 336
  {
    var mp := (5 * doy + 2) / 153;
    (mp, doy - (153 * mp + 2) / 5 + 1)
  }

  /** The date `z` days after 1970-01-01. */
  function CivilFromDays(z: int): Date {
    var zp := z + 719468;             // days since 0000-03-01
    var era := zp / 146097;
    var yd := SplitDayOfEra(zp - era * 146097);    // (year of era, day of year)
    var md := SplitMarchYearDay(yd.1);              // (month from March, day)
    MarchDate(era * 400 + yd.0, md.0, md.1)
  }

  /** Day `d` of month `mp` (0 = March) of the March-based year `yp`. */
  function MarchDate(yp: int, mp: int, d: int): Date {
    var m := if mp < 10 then mp + 3 else mp - 9;
    Date(if m <= 2 then yp + 1 else yp, m, d)
  }

  // ---------------------------------------------------------------------
  // Day counts and years

  /** A March-based year holds the leap day of the calendar year after it. */
  lemma MarchYearStep(yp: int)
    ensures MarchYearStart(yp + 1) == MarchYearStart(yp) + YearLength(yp + 1)
  {
    var era := yp / 400;
    var yoe := yp - era * 400;
    MarchYearStepInEra(era, yoe);
  }

  lemma MarchYearStepInEra(era: int, yoe: int)
    requires 0 <= yoe < 400
    ensures MarchYearStart(era * 400 + yoe + 1)
         == MarchYearStart(era * 400 + yoe) + YearLength(era * 400 + yoe + 1)
  {
    MarchYearStartInEra(era, yoe);
    LeapYearInEra(era, yoe + 1);
    if yoe == 399 {
      MarchYearStartInEra(era + 1, 0);
      assert era * 400 + yoe + 1 == (era + 1) * 400 + 0;
    } else {
      MarchYearStartInEra(era, yoe + 1);
      LeapDaysStep(yoe);
    }
  }

  /** Within an era, the leap-day count grows by one exactly after a leap year. */
  lemma LeapDaysStep(yoe: int)
    requires 0 <= yoe < 399
    ensures 365 * (yoe + 1) + (yoe + 1) / 4 - (yoe + 1) / 100 - (365 * yoe + yoe / 4 - yoe / 100)
         == if (yoe + 1) % 4 == 0 && (yoe + 1) % 100 != 0 then 366 else 365
  {
    assert (yoe + 1) / 4 - yoe / 4 == (if (yoe + 1) % 4 == 0 then 1 else 0);
    assert (yoe + 1) / 100 - yoe / 100 == (if (yoe + 1) % 100 == 0 then 1 else 0);
  }

  lemma YearLengthStep(y: int)
    ensures Jan1(y + 1) == Jan1(y) + YearLength(y)
  {
    MarchYearStep(y - 1);
  }

  /** Days before month `m` (from March on), counted from 1 March. */
  lemma MarchMonthOffset(m: int)
    requires 3 <= m <= 12
    ensures (153 * (m - 3) + 2) / 5 == DaysBeforeMonth(1, m) - 59
  {
    if m == 3 { } else if m == 4 { } else if m == 5 { } else if m == 6 { }
    else if m == 7 { } else if m == 8 { } else if m == 9 { } else if m == 10 { }
    else if m == 11 { } else { }
  }

  /** The day count of a date is its year's first day plus its ordinal day. */
  lemma OrdinalDay(y: int, m: int, d: int)
    requires 1 <= m <= 12
    ensures DaysFromCivil(y, m, d) == Jan1(y) + DayOfYear(y, m, d) - 1
  {
    assert Jan1(y) == MarchYearStart(y - 1) + 306 - 719468;
    if m > 2 {
      MarchYearStep(y - 1);
      MarchMonthOffset(m);
      assert DaysFromCivil(y, m, d) == MarchYearStart(y - 1) + YearLength(y) + (153 * (m - 3) + 2) / 5 + d - 1 - 719468;
      assert DaysBeforeMonth(y, m) == DaysBeforeMonth(1, m) + YearLength(y) - 365;
    }
  }

  /** A valid date lies within its year. */
  lemma DateInItsYear(y: int, m: int, d: int)
    requires IsValidDate(y, m, d)
    ensures 0 <= DayOfYear(y, m, d) - 1 < YearLength(y)
    ensures DaysFromCivil(y, m, d) == Jan1(y) + DayOfYear(y, m, d) - 1
    ensures Jan1(y + 1) == Jan1(y) + YearLength(y)
  {
    OrdinalDay(y, m, d);
    MonthsFitInYear(y, m);
    YearLengthStep(y);
  }

  lemma MonthsFitInYear(y: int, m: int)
    requires 1 <= m <= 12
    ensures DaysBeforeMonth(y, m) + DaysInMonth(y, m) <= YearLength(y)
    ensures m < 12 ==> DaysBeforeMonth(y, m + 1) == DaysBeforeMonth(y, m) + DaysInMonth(y, m)
  {
  }

  lemma MarchYearStartInEra(era: int, yoe: int)
    requires 0 <= yoe < 400
    ensures MarchYearStart(era * 400 + yoe) == era * 146097 + 365 * yoe + yoe / 4 - yoe / 100
  {
    assert (era * 400 + yoe) / 400 == era;
  }

  lemma ShiftedRemainder4(t: int, k: int)
    ensures (4 * t + k) % 4 == k % 4
  {
    assert 4 * t + k == 4 * (t + k / 4) + k % 4;
  }

  lemma ShiftedRemainder100(t: int, k: int)
    ensures (100 * t + k) % 100 == k % 100
  {
    assert 100 * t + k == 100 * (t + k / 100) + k % 100;
  }

  lemma ShiftedRemainder400(t: int, k: int)
    ensures (400 * t + k) % 400 == k % 400
  {
    assert 400 * t + k == 400 * (t + k / 400) + k % 400;
  }

  /** Leap years repeat with the 400-year era. */
  lemma LeapYearInEra(era: int, k: int)
    requires 1 <= k <= 400
    ensures IsLeapYear(era * 400 + k) <==> k % 4 == 0 && (k % 100 != 0 || k == 400)
  {
    var y := era * 400 + k;
    assert y % 4 == k % 4 by {
      ShiftedRemainder4(100 * era, k);
    }
    assert y % 100 == k % 100 by {
      ShiftedRemainder100(4 * era, k);
    }
    assert y % 400 == 0 <==> k == 400 by {
      ShiftedRemainder400(era, k);
    }
  }

  /** CivilFromDays assembles its date from the era split and the March-year split. */
  lemma CivilFromDaysUnfold(z: int)
    ensures var zp := z + 719468;
      var era := zp / 146097;
      var yd := SplitDayOfEra(zp - era * 146097);
      var md := SplitMarchYearDay(yd.1);
      CivilFromDays(z) == MarchDate(era * 400 + yd.0, md.0, md.1)
  {
  }

  /** Every day count denotes a valid date, and converting back gives it. */
  lemma CivilRoundTrip(z: int)
    ensures var dt := CivilFromDays(z);
      IsValidDate(dt.year, dt.month, dt.day) && DaysFromCivil(dt.year, dt.month, dt.day) == z
  {
    var zp := z + 719468;
    var era := zp / 146097;
    var yd := SplitDayOfEra(zp - era * 146097);
    var md := SplitMarchYearDay(yd.1);
    CivilFromDaysUnfold(z);
    MarchDateRoundTrip(z, era, yd.0, yd.1, md.0, md.1);
  }

  /** The date assembled from the parts of a day count is valid and has that day count. */
  lemma MarchDateRoundTrip(z: int, era: int, yoe: int, doy: int, mp: int, d: int)
    requires 0 <= yoe <= 399 && 0 <= doy <= 365 && 0 <= mp <= 11 && 1 <= d
    requires z + 719468 == era * 146097 + 365 * yoe + yoe / 4 - yoe / 100 + doy
    requires doy == 365 ==> (yoe + 1) % 4 == 0 && ((yoe + 1) % 100 != 0 || yoe == 399)
    requires doy == (153 * mp + 2) / 5 + d - 1
    requires mp < 11 ==> d <= DaysInMonth(0, if mp < 10 then mp + 3 else mp - 9)
    requires mp == 11 ==> d == doy - 336
    ensures var dt := MarchDate(era * 400 + yoe, mp, d);
      IsValidDate(dt.year, dt.month, dt.day) && DaysFromCivil(dt.year, dt.month, dt.day) == z
  {
    var m := if mp < 10 then mp + 3 else mp - 9;
    var yp := era * 400 + yoe;
    var y := if m <= 2 then yp + 1 else yp;
    assert DaysFromCivil(y, m, d) == z by {
      MarchYearStartInEra(era, yoe);
    }
    assert IsValidDate(y, m, d) by {
      if mp == 11 {
        // The leap day closing the March-based year yp is 29 February of yp + 1.
        LeapYearInEra(era, yoe + 1);
      }
    }
  }

  /** A day lies between the first day of its year and that of the next. */
  lemma DayWithinItsYear(z: int)
    ensures Jan1(CivilFromDays(z).year) <= z < Jan1(CivilFromDays(z).year + 1)
  {
    var dt := CivilFromDays(z);
    CivilRoundTrip(z);
    DateInItsYear(dt.year, dt.month, dt.day);
  }

  /** Some year brackets day `z`. */
  lemma YearContaining(z: int) returns (y: int)
    ensures Jan1(y) <= z < Jan1(y + 1)
  {
    DayWithinItsYear(z);
    y := CivilFromDays(z).year;
  }

  lemma {:induction false} Jan1Monotone(a: int, b: int)
    requires a <= b
    ensures Jan1(a) + 365 * (b - a) <= Jan1(b)
    decreases b - a
  {
    if a < b {
      Jan1Monotone(a, b - 1);
      YearLengthStep(b - 1);
    }
  }

  /** The year of a day is the one whose first day and the next bracket it. */
  lemma YearOfDay(z: int, y: int)
    requires Jan1(y) <= z < Jan1(y + 1)
    ensures CivilFromDays(z).year == y
  {
    DayWithinItsYear(z);
    YearsAreDisjoint(z, y, CivilFromDays(z).year);
  }

  /** No day lies in two different years. */
  lemma YearsAreDisjoint(z: int, y: int, y': int)
    requires Jan1(y) <= z < Jan1(y + 1)
    requires Jan1(y') <= z < Jan1(y' + 1)
    ensures y == y'
  {
    if y' < y {
      Jan1Monotone(y' + 1, y);
    } else if y' > y {
      Jan1Monotone(y + 1, y');
    }
  }

  /** Conversely, a valid date is recovered from its day count. */
  lemma CivilOfDays(y: int, m: int, d: int)
    requires IsValidDate(y, m, d)
    ensures CivilFromDays(DaysFromCivil(y, m, d)) == Date(y, m, d)
  {
    var z := DaysFromCivil(y, m, d);
    DateInItsYear(y, m, d);
    YearOfDay(z, y);
    var dt := CivilFromDays(z);
    CivilRoundTrip(z);
    assert DayOfYear(y, m, d) == DayOfYear(y, dt.month, dt.day) by {
      DateInItsYear(dt.year, dt.month, dt.day);
    }
    DayOfYearOrder(y, m, d, dt.month, dt.day);
    DayOfYearOrder(y, dt.month, dt.day, m, d);
  }

  /** The first days of later months come later. */
  lemma MonthOrder(y: int, m: int, m': int)
    requires 1 <= m < m' <= 12
    ensures DaysBeforeMonth(y, m) + DaysInMonth(y, m) <= DaysBeforeMonth(y, m')
  {
  }

  /** Day counts follow the lexicographic order of (year, month, day). */
  lemma DaysFromCivilOrder(y: int, m: int, d: int, y': int, m': int, d': int)
    requires IsValidDate(y, m, d) && IsValidDate(y', m', d')
    ensures DaysFromCivil(y, m, d) < DaysFromCivil(y', m', d') <==>
      y < y' || (y == y' && (m < m' || (m == m' && d < d')))
  {
    DateInItsYear(y, m, d);
    DateInItsYear(y', m', d');
    if y < y' {
      EarlierYearEarlierDay(DaysFromCivil(y, m, d), y, DaysFromCivil(y', m', d'), y');
    } else if y' < y {
      EarlierYearEarlierDay(DaysFromCivil(y', m', d'), y', DaysFromCivil(y, m, d), y);
    } else {
      DayOfYearOrder(y, m, d, m', d');
    }
  }

  /** Every day of an earlier year comes before every day of a later one. */
  lemma EarlierYearEarlierDay(z: int, y: int, z': int, y': int)
    requires z < Jan1(y + 1) && Jan1(y') <= z' && y < y'
    ensures z < z'
  {
    Jan1Monotone(y + 1, y');
  }

  /** Within a year, ordinal days follow the order of (month, day). */
  lemma DayOfYearOrder(y: int, m: int, d: int, m': int, d': int)
    requires IsValidDate(y, m, d) && IsValidDate(y, m', d')
    ensures DayOfYear(y, m, d) < DayOfYear(y, m', d') <==> m < m' || (m == m' && d < d')
  {
    if m < m' {
      MonthOrder(y, m, m');
    } else if m' < m {
      MonthOrder(y, m', m);
    }
  }

  // ---------------------------------------------------------------------
  // Weekdays

  /** Spark's `dayofweek`: 1 = Sunday ... 7 = Saturday (1970-01-01 was a Thursday). */
  function DayOfWeek(z: int): (w: int)
    ensures 1 <= w <= 7
  {
    (z + 4) % 7 + 1
  }

  /** ISO 8601 weekday: 1 = Monday ... 7 = Sunday. */
  function IsoWeekday(z: int): (w: int)
    ensures 1 <= w <= 7
  {
    (z + 3) % 7 + 1
  }

  /**
   Zeller's congruence for the Gregorian calendar, an independent reference:
   January and February count as months 13 and 14 of the previous year, and
   h = 0 is Saturday, 1 Sunday, ..., 6 Friday. Returned on Spark's scale.
   */
  function ZellerDayOfWeek(y: int, m: int, d: int): int
    requires 1 <= m <= 12
  {
    var mz := if m < 3 then m + 12 else m;
    var yz := if m < 3 then y - 1 else y;
    var k := yz % 100;
    var j := yz / 100;
    var h := (d + 13 * (mz + 1) / 5 + k + k / 4 + j / 4 + 5 * j) % 7;
    (h + 6) % 7 + 1
  }

  lemma DayOfWeekMatchesZeller(y: int, m: int, d: int)
    requires 1 <= m <= 12
    ensures DayOfWeek(DaysFromCivil(y, m, d)) == ZellerDayOfWeek(y, m, d)
  {
    var n, r := ZellerCongruence(y, m, d);
    SevenfoldShift(n, r);
  }

  /** Both weekday formulas, written as multiples of seven plus a common remainder. */
  lemma ZellerCongruence(y: int, m: int, d: int) returns (n: int, r: int)
    requires 1 <= m <= 12
    ensures DaysFromCivil(y, m, d) + 4 == 7 * n + r
    ensures ZellerDayOfWeek(y, m, d) == r % 7 + 1
  {
    var era, a, b, mp := DaysFromCivilParts(y, m, d);
    var x := d + 13 * (mp + 4) / 5 + b + b / 4 + 21 * era + 5 * a;
    ZellerParts(y, m, d, era, a, b, mp);
    var k := MonthTermCongruence(mp);
    n := 20868 * era + 5217 * a + 52 * b + k - 102781 + x / 7;
    r := x % 7 + 6;
  }

  /** The day count split along eras, centuries and years of the century. */
  lemma DaysFromCivilParts(y: int, m: int, d: int) returns (era: int, a: int, b: int, mp: int)
    requires 1 <= m <= 12
    ensures 0 <= a < 4 && 0 <= b < 100 && 0 <= mp <= 11
    ensures mp == if m > 2 then m - 3 else m + 9
    ensures (if m <= 2 then y - 1 else y) == 400 * era + 100 * a + b
    ensures DaysFromCivil(y, m, d) == era * 146097 + 36524 * a + 365 * b + b / 4 + (153 * mp + 2) / 5 + d - 1 - 719468
  {
    var yp := if m <= 2 then y - 1 else y;
    mp := if m > 2 then m - 3 else m + 9;
    era := yp / 400;
    var yoe := yp - era * 400;
    a := yoe / 100;
    b := yoe % 100;
    MarchYearStartInEra(era, yoe);
    assert yoe / 4 == 25 * a + b / 4;
  }

  lemma ZellerParts(y: int, m: int, d: int, era: int, a: int, b: int, mp: int)
    requires 1 <= m <= 12 && 0 <= a < 4 && 0 <= b < 100
    requires mp == if m > 2 then m - 3 else m + 9
    requires (if m <= 2 then y - 1 else y) == 400 * era + 100 * a + b
    ensures ZellerDayOfWeek(y, m, d) == ((d + 13 * (mp + 4) / 5 + b + b / 4 + 21 * era + 5 * a) % 7 + 6) % 7 + 1
  {
    var yz := if m < 3 then y - 1 else y;
    assert yz == 100 * (4 * era + a) + b;
    assert yz % 100 == b && yz / 100 == 4 * era + a;
    assert (4 * era + a) / 4 == era;
  }

  /** The month terms of the two formulas differ by 4 modulo 7. */
  lemma MonthTermCongruence(mp: int) returns (k: int)
    requires 0 <= mp <= 11
    ensures (153 * mp + 2) / 5 - 13 * (mp + 4) / 5 - 4 == 7 * k
  {
    if mp == 0 { k := -2; }
    else if mp == 1 { k := 2; }
    else if mp == 2 { k := 6; }
    else if mp == 3 { k := 10; }
    else if mp == 4 { k := 14; }
    else if mp == 5 { k := 18; }
    else if mp == 6 { k := 22; }
    else if mp == 7 { k := 26; }
    else if mp == 8 { k := 30; }
    else if mp == 9 { k := 34; }
    else if mp == 10 { k := 38; }
    else { k := 42; }
  }

  lemma SevenfoldShift(n: int, r: int)
    ensures (7 * n + r) % 7 == r % 7
  {
  }

  // ---------------------------------------------------------------------
  // ISO week numbers

  /** Number of ISO weeks of year `y`: 53 when it starts on a Thursday, or on a Wednesday in a leap year. */
  function WeeksInYear(y: int): int {
    var w := IsoWeekday(Jan1(y));
    if w == 4 || (w == 3 && IsLeapYear(y)) then 53 else 52
  }

  /** Division that truncates toward zero, as on Java's `int`. */
  function TruncDiv(a: int, b: int): int
    requires b > 0
  {
    if a >= 0 then a / b else -((-a) / b)
  }

  /**
   Spark's `weekofyear`: the week of the week-based year as java.time computes
   it from a date's 0-based ordinal day `doy0`, its weekday `dow0` (Monday = 0),
   whether its year is a leap year, and the number of weeks of the year before.
   */
  function WeekFromOrdinal(doy0: int, dow0: int, leap: bool, weeksBefore: int): int {
    var doyThu0 := doy0 + (3 - dow0);
    var alignedWeek := TruncDiv(doyThu0, 7);
    var firstThuDoy0 := doyThu0 - alignedWeek * 7;
    var firstMonDoy0 := if firstThuDoy0 - 3 < -3 then firstThuDoy0 - 3 + 7 else firstThuDoy0 - 3;
    if doy0 < firstMonDoy0 then weeksBefore
    else
      var week := (doy0 - firstMonDoy0) / 7 + 1;
      if week == 53 && !(firstMonDoy0 == -3 || (firstMonDoy0 == -2 && leap)) then 1
      else week
  }

  function WeekOfYear(y: int, m: int, d: int): int
    requires IsValidDate(y, m, d)
  {
    WeekFromOrdinal(DayOfYear(y, m, d) - 1, IsoWeekday(DaysFromCivil(y, m, d)) - 1,
                    IsLeapYear(y), WeeksInYear(y - 1))
  }

  /**
   The three outcomes of WeekFromOrdinal, by where the Thursday of the date's
   week falls (offset `t` from 1 January): in the year before, in the year
   itself, or in the year after.
   */
  lemma WeekFromOrdinalCases(doy0: int, dow0: int, leap: bool, weeksBefore: int)
    requires 0 <= dow0 <= 6
    requires 0 <= doy0 < (if leap then 366 else 365)
    ensures var t := doy0 - dow0 + 3;
      var len := if leap then 366 else 365;
      var w := WeekFromOrdinal(doy0, dow0, leap, weeksBefore);
      (t < 0 ==> w == weeksBefore) &&
      (0 <= t < len ==> w == t / 7 + 1) &&
      (len <= t ==> w == 1)
  {
    var t := doy0 - dow0 + 3;
    var firstThuDoy0 := t - TruncDiv(t, 7) * 7;
    var firstMon := if firstThuDoy0 - 3 < -3 then firstThuDoy0 - 3 + 7 else firstThuDoy0 - 3;
    if t < 0 {
      assert firstMon == t + 4;
    } else {
      assert firstMon == t % 7 - 3;
      assert doy0 - firstMon == dow0 + 7 * (t / 7);
      assert (doy0 - firstMon) / 7 == t / 7;
    }
  }

  /**
   The ISO 8601 week number, as the standard defines it: weeks run Monday to
   Sunday, a week belongs to the year of its Thursday, and week 1 is the week
   holding that year's first Thursday.
   */
  function IsoWeek(z: int): int {
    var thu := z - IsoWeekday(z) + 4;
    (thu - Jan1(CivilFromDays(thu).year)) / 7 + 1
  }

  lemma IsoWeekRange(z: int)
    ensures 1 <= IsoWeek(z) <= 53
  {
    var thu := z - IsoWeekday(z) + 4;
    var y := YearContaining(thu);
    IsoWeekOfInnerDay(z, y);
    YearLengthStep(y);
    WeekIndexBound(thu - Jan1(y), Jan1(y + 1) - Jan1(y));
  }

  lemma WeekIndexBound(k: int, len: int)
    requires 0 <= k < len <= 366
    ensures 1 <= k / 7 + 1 <= 53
  {
  }

  /** 4 January always lies in week 1. */
  lemma FourthOfJanuaryInWeekOne(y: int)
    ensures IsoWeek(Jan1(y) + 3) == 1
  {
    YearLengthStep(y);
    IsoWeekOfInnerDay(Jan1(y) + 3, y);
  }

  /** The last Thursday of a year falls in week WeeksInYear. */
  lemma LastThursdayWeek(y: int, thu: int)
    requires IsoWeekday(thu) == 4
    requires Jan1(y) <= thu < Jan1(y + 1) <= thu + 7
    ensures (thu - Jan1(y)) / 7 + 1 == WeeksInYear(y)
  {
    YearLengthStep(y);
    LastThursdayOffset(Jan1(y), YearLength(y), thu);
  }

  /** The offset of the last Thursday of a year starting on day `j`. */
  lemma LastThursdayOffset(j: int, len: int, thu: int)
    requires IsoWeekday(thu) == 4 && (len == 365 || len == 366)
    requires j <= thu < j + len <= thu + 7
    ensures (thu - j) / 7 + 1
         == if IsoWeekday(j) == 4 || (IsoWeekday(j) == 3 && len == 366) then 53 else 52
  {
    var w := (j + 3) % 7;
    var q := (j + 3) / 7;
    assert j + 3 == 7 * q + w;
    var p := (thu + 3) / 7;
    assert thu + 3 == 7 * p + 3;
    assert thu - j == 7 * (p - q) + 3 - w;
  }

  lemma ThursdayOfWeek(z: int)
    ensures IsoWeekday(z - IsoWeekday(z) + 4) == 4
  {
    var thu := z - IsoWeekday(z) + 4;
    var p := (z + 3) / 7;
    assert z + 3 == 7 * p + (z + 3) % 7;
    assert thu + 3 == 7 * p + 3;
  }

  /** A day whose week's Thursday is in the year before belongs to that year's last week. */
  lemma IsoWeekOfEarlyDay(z: int, y: int)
    requires Jan1(y) <= z && z - IsoWeekday(z) + 4 < Jan1(y)
    ensures IsoWeek(z) == WeeksInYear(y - 1)
  {
    YearLengthStep(y - 1);
    LastWeekOfYear(z, y - 1);
  }

  /** A day whose week's Thursday is the last one of year `y` is in week WeeksInYear(y). */
  lemma LastWeekOfYear(z: int, y: int)
    requires var thu := z - IsoWeekday(z) + 4;
      Jan1(y) <= thu < Jan1(y + 1) <= thu + 7
    ensures IsoWeek(z) == WeeksInYear(y)
  {
    var thu := z - IsoWeekday(z) + 4;
    WeekOfThursday(z, thu, y);
    ThursdayOfWeek(z);
    LastThursdayWeek(y, thu);
  }

  /** A day whose week's Thursday is in year `y` is in week (offset of that Thursday) / 7 + 1. */
  lemma IsoWeekOfInnerDay(z: int, y: int)
    requires Jan1(y) <= z - IsoWeekday(z) + 4 < Jan1(y + 1)
    ensures IsoWeek(z) == (z - IsoWeekday(z) + 4 - Jan1(y)) / 7 + 1
  {
    WeekOfThursday(z, z - IsoWeekday(z) + 4, y);
  }

  /** The week of `z` counts from the first day of the year holding its Thursday. */
  lemma WeekOfThursday(z: int, thu: int, y: int)
    requires thu == z - IsoWeekday(z) + 4 && Jan1(y) <= thu < Jan1(y + 1)
    ensures IsoWeek(z) == (thu - Jan1(y)) / 7 + 1
  {
    YearOfDay(thu, y);
  }

  /** A day whose week's Thursday is in the year after is in week 1. */
  lemma IsoWeekOfLateDay(z: int, y: int)
    requires z < Jan1(y + 1) <= z - IsoWeekday(z) + 4
    ensures IsoWeek(z) == 1
  {
    var thu := z - IsoWeekday(z) + 4;
    assert Jan1(y + 1) <= thu < Jan1(y + 2) by {
      YearLengthStep(y + 1);
    }
    WeekOfThursday(z, thu, y + 1);
  }

  /** Spark's `weekofyear` is the ISO 8601 week number. */
  lemma WeekOfYearIsIsoWeek(y: int, m: int, d: int)
    requires IsValidDate(y, m, d)
    ensures WeekOfYear(y, m, d) == IsoWeek(DaysFromCivil(y, m, d))
  {
    var z := DaysFromCivil(y, m, d);
    var doy0 := DayOfYear(y, m, d) - 1;
    var leap := IsLeapYear(y);
    assert WeekOfYear(y, m, d) == WeekFromOrdinal(doy0, IsoWeekday(z) - 1, leap, WeeksInYear(y - 1));
    DateInItsYear(y, m, d);
    IsoWeekByThursday(z, y, doy0, leap);
  }

  /** The ISO week of day `z` of year `y` is what the ordinal-day algorithm computes. */
  lemma IsoWeekByThursday(z: int, y: int, doy0: int, leap: bool)
    requires var len := if leap then 366 else 365;
      z == Jan1(y) + doy0 && 0 <= doy0 < len && Jan1(y + 1) == Jan1(y) + len
    ensures IsoWeek(z) == WeekFromOrdinal(doy0, IsoWeekday(z) - 1, leap, WeeksInYear(y - 1))
  {
    var t := doy0 - (IsoWeekday(z) - 1) + 3;
    WeekFromOrdinalCases(doy0, IsoWeekday(z) - 1, leap, WeeksInYear(y - 1));
    if t < 0 {
      IsoWeekOfEarlyDay(z, y);
    } else if t < (if leap then 366 else 365) {
      IsoWeekOfInnerDay(z, y);
    } else {
      IsoWeekOfLateDay(z, y);
    }
  }
}
