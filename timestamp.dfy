/**
 The `start_time` column: `ts` (milliseconds since the POSIX Epoch) turned
 into whole local seconds and written as `YYYY-MM-DD HH:MM:SS`, the way
 `datetime.fromtimestamp(ts / 1000.0).strftime('%Y-%m-%d %H:%M:%S')` does,
 and read back field by field, the way Spark's date functions read that
 string. Local time is UTC shifted by a fixed offset in seconds.
 */
module Timestamp {
  import opened Values
  import opened Calendar

  // ---------------------------------------------------------------------
  // Decimal digits

  predicate IsDigit(c: char) {
    '0' <= c <= '9'
  }

  function Digit(d: int): (c: char)
    requires 0 <= d <= 9
    ensures IsDigit(c) && DigitValue(c) == d
  {
    ('0' as int + d) as char
  }

  function DigitValue(c: char): int
    requires IsDigit(c)
  {
    c as int - '0' as int
  }

  /** `n` as exactly two decimal digits (`%m`, `%d`, `%H`, `%M`, `%S`). */
  function Pad2(n: int): (s: string)
    requires 0 <= n < 100
    ensures |s| == 2 && IsDigit(s[0]) && IsDigit(s[1])
    ensures 10 * DigitValue(s[0]) + DigitValue(s[1]) == n
  {
    [Digit(n / 10), Digit(n % 10)]
  }

  /** `n` as exactly four decimal digits (`%Y`). */
  function Pad4(n: int): (s: string)
    requires 0 <= n < 10000
    ensures |s| == 4 && forall i :: 0 <= i < 4 ==> IsDigit(s[i])
    ensures 1000 * DigitValue(s[0]) + 100 * DigitValue(s[1]) + 10 * DigitValue(s[2]) + DigitValue(s[3]) == n
  {
    Pad2(n / 100) + Pad2(n % 100)
  }

  /** A separator character followed by a two-digit field. */
  function Field2(sep: char, n: int): (s: string)
    requires 0 <= n < 100
    ensures |s| == 3 && s[0] == sep && s[1..] == Pad2(n)
  {
    [sep] + Pad2(n)
  }

  // ---------------------------------------------------------------------
  // The broken-down time and its text

  datatype Fields = Fields(year: int, month: int, day: int, hour: int, minute: int, second: int)

  /** A wall-clock time Python's `datetime` can hold: years 1 to 9999. */
  predicate ValidFields(f: Fields) {
    1 <= f.year <= 9999 && IsValidDate(f.year, f.month, f.day)
    && 0 <= f.hour < 24 && 0 <= f.minute < 60 && 0 <= f.second < 60
  }

  /** The 19 characters `YYYY-MM-DD HH:MM:SS`. */
  function Compose(f: Fields): (s: string)
    requires ValidFields(f)
    ensures IsTimestamp(s) && Parse(s) == f
  {
    var s := Pad4(f.year) + (Field2('-', f.month) + (Field2('-', f.day)
      + (Field2(' ', f.hour) + (Field2(':', f.minute) + Field2(':', f.second)))));
    assert s[..4] == Pad4(f.year);
    assert s[5..7] == Pad2(f.month);
    assert s[8..10] == Pad2(f.day);
    assert s[11..13] == Pad2(f.hour);
    assert s[14..16] == Pad2(f.minute);
    assert s[17..] == Pad2(f.second);
    s
  }

  /** Digits at the positions of the fields, the fixed separators between them. */
  predicate IsTimestampShape(s: string) {
    |s| == 19 && s[4] == '-' && s[7] == '-' && s[10] == ' ' && s[13] == ':' && s[16] == ':'
    && forall i :: 0 <= i < 19 && i !in {4, 7, 10, 13, 16} ==> IsDigit(s[i])
  }

  function Number2(s: string, i: int): int
    requires 0 <= i && i + 2 <= |s| && IsDigit(s[i]) && IsDigit(s[i + 1])
  {
    10 * DigitValue(s[i]) + DigitValue(s[i + 1])
  }

  /** Reads the six fields back from a `YYYY-MM-DD HH:MM:SS` string. */
  function Parse(s: string): Fields
    requires IsTimestampShape(s)
  {
    Fields(100 * Number2(s, 0) + Number2(s, 2), Number2(s, 5), Number2(s, 8),
           Number2(s, 11), Number2(s, 14), Number2(s, 17))
  }

  predicate IsTimestamp(s: string) {
    IsTimestampShape(s) && ValidFields(Parse(s))
  }

  /** A well-formed `start_time` value. */
  type Timestamp = s: string | IsTimestamp(s) witness "1970-01-01 00:00:00"

  /** Parsing and composing are inverse: a timestamp is determined by its fields. */
  lemma ComposeParse(t: Timestamp)
    ensures Compose(Parse(t)) == t
  {
    var s := Compose(Parse(t));
    assert Parse(s) == Parse(t);
    SplitHundreds(Number2(s, 0), Number2(s, 2), Number2(t, 0), Number2(t, 2));
    SameNumber2(s, t, 0);
    SameNumber2(s, t, 2);
    SameNumber2(s, t, 5);
    SameNumber2(s, t, 8);
    SameNumber2(s, t, 11);
    SameNumber2(s, t, 14);
    SameNumber2(s, t, 17);
    forall i | 0 <= i < 19
      ensures s[i] == t[i]
    {
      assert i in {0, 1, 2, 3, 4, 5, 6, 7, 8, 9, 10, 11, 12, 13, 14, 15, 16, 17, 18};
    }
  }

  /** The century and the year of the century are determined by the year. */
  lemma SplitHundreds(a: int, b: int, c: int, d: int)
    requires 0 <= b < 100 && 0 <= d < 100 && 100 * a + b == 100 * c + d
    ensures a == c && b == d
  {
  }

  /** Equal two-digit numbers are written with equal digits. */
  lemma SameNumber2(s: string, t: string, i: int)
    requires 0 <= i && i + 2 <= |s| && IsDigit(s[i]) && IsDigit(s[i + 1])
    requires i + 2 <= |t| && IsDigit(t[i]) && IsDigit(t[i + 1])
    requires Number2(s, i) == Number2(t, i)
    ensures s[i] == t[i] && s[i + 1] == t[i + 1]
  {
    SplitTens(DigitValue(s[i]), DigitValue(s[i + 1]), DigitValue(t[i]), DigitValue(t[i + 1]));
  }

  lemma SplitTens(a: int, b: int, c: int, d: int)
    requires 0 <= b < 10 && 0 <= d < 10 && 10 * a + b == 10 * c + d
    ensures a == c && b == d
  {
  }

  // ---------------------------------------------------------------------
  // Seconds and text

  /** Local seconds since 1970-01-01 00:00:00 of a broken-down time. */
  function SecondsOfFields(f: Fields): int
    requires 1 <= f.month <= 12
  {
    DaysFromCivil(f.year, f.month, f.day) * 86400 + f.hour * 3600 + f.minute * 60 + f.second
  }

  /** The broken-down time `secs` local seconds after 1970-01-01 00:00:00. */
  function FieldsOf(secs: int): Fields {
    var date := CivilFromDays(secs / 86400);
    var sod := secs % 86400;
    Fields(date.year, date.month, date.day, sod / 3600, sod % 3600 / 60, sod % 60)
  }

  /** Python's `datetime` accepts only the years 1 to 9999. */
  predicate InYearRange(secs: int) {
    1 <= CivilFromDays(secs / 86400).year <= 9999
  }

  /** The first and last local second of a year in 1..9999. */
  const MinLocalSeconds: int := -62135596800
  const MaxLocalSeconds: int := 253402300799

  /** `strftime('%Y-%m-%d %H:%M:%S')` of the time `secs` local seconds after the Epoch. */
  function Format(secs: int): (t: Timestamp)
    requires InYearRange(secs)
    ensures SecondsOf(t) == secs
  {
    FieldsRoundTrip(secs);
    Compose(FieldsOf(secs))
  }

  /** The local seconds a timestamp denotes (parsing it back). */
  function SecondsOf(t: Timestamp): int {
    SecondsOfFields(Parse(t))
  }

  lemma FieldsRoundTrip(secs: int)
    requires InYearRange(secs)
    ensures ValidFields(FieldsOf(secs)) && SecondsOfFields(FieldsOf(secs)) == secs
  {
    CivilRoundTrip(secs / 86400);
    TimeOfDaySplit(secs);
  }

  /** A second count is whole days plus hours, minutes and seconds of the day. */
  lemma TimeOfDaySplit(secs: int)
    ensures var sod := secs % 86400;
      secs == secs / 86400 * 86400 + sod / 3600 * 3600 + sod % 3600 / 60 * 60 + sod % 60
      && 0 <= sod / 3600 < 24 && 0 <= sod % 3600 / 60 < 60 && 0 <= sod % 60 < 60
  {
  }

  /** Whole days and a second of the day split back apart. */
  lemma TimeOfDayJoin(z: int, h: int, m: int, s: int)
    requires 0 <= h < 24 && 0 <= m < 60 && 0 <= s < 60
    ensures var secs := z * 86400 + h * 3600 + m * 60 + s;
      secs / 86400 == z && secs % 86400 / 3600 == h
      && secs % 86400 % 3600 / 60 == m && secs % 86400 % 60 == s
  {
    var sod := h * 3600 + m * 60 + s;
    assert (z * 86400 + sod) / 86400 == z && (z * 86400 + sod) % 86400 == sod;
    assert sod / 3600 == h && sod % 3600 == m * 60 + s;
    assert (m * 60 + s) / 60 == m && sod % 60 == s;
  }

  /**
   CPython's `fromtimestamp` without a time zone also converts the instant one
   day earlier, to detect a repeated local hour; that conversion must land in
   the years 1..9999 too.
   */
  const FoldProbeSeconds: int := 86400

  /**
   The derived `start_time` of a log row, or `None` where Python raises:
   the local time, or the local time one day earlier, falls outside the
   years 1..9999. `ts / 1000` is floor division, as `fromtimestamp`
   truncates toward the past and `%S` drops the fraction.
   */
  function StartTime(ts: int, utcOffset: int): (r: Option<Timestamp>)
    ensures r.Some? <==> MinLocalSeconds + FoldProbeSeconds <= ts / 1000 + utcOffset <= MaxLocalSeconds
    ensures r.Some? ==> SecondsOf(r.value) == ts / 1000 + utcOffset
  {
    var local := ts / 1000 + utcOffset;
    YearRangeBounds(local);
    YearRangeBounds(local - FoldProbeSeconds);
    if InYearRange(local) && InYearRange(local - FoldProbeSeconds) then Some(Format(local)) else None
  }

  /** On the first local day of year 1 the time itself is representable, yet the UDF raises. */
  lemma FirstLocalDayRaises(ts: int, utcOffset: int)
    requires MinLocalSeconds <= ts / 1000 + utcOffset < MinLocalSeconds + FoldProbeSeconds
    ensures InYearRange(ts / 1000 + utcOffset) && StartTime(ts, utcOffset).None?
  {
    YearRangeBounds(ts / 1000 + utcOffset);
  }

  /** Formatting the seconds a timestamp denotes gives that timestamp back. */
  lemma FormatSecondsOf(t: Timestamp)
    ensures InYearRange(SecondsOf(t)) && Format(SecondsOf(t)) == t
  {
    FieldsOfSeconds(Parse(t));
    ComposeParse(t);
  }

  /** Two timestamps denoting the same instant are the same string. */
  lemma SecondsDetermineTimestamp(s: Timestamp, t: Timestamp)
    requires SecondsOf(s) == SecondsOf(t)
    ensures s == t
  {
    FormatSecondsOf(s);
    FormatSecondsOf(t);
  }

  /**
   `start_time` is the one timestamp denoting the local second of `ts`,
   except on the first local day of year 1, where the UDF raises.
   */
  lemma StartTimeOfSeconds(ts: int, utcOffset: int, t: Timestamp)
    requires SecondsOf(t) == ts / 1000 + utcOffset
    ensures StartTime(ts, utcOffset) == if MinLocalSeconds + FoldProbeSeconds <= SecondsOf(t) then Some(t) else None
  {
    FormatSecondsOf(t);
    YearRangeBounds(SecondsOf(t));
    if MinLocalSeconds + FoldProbeSeconds <= SecondsOf(t) {
      SecondsDetermineTimestamp(StartTime(ts, utcOffset).value, t);
    }
  }

  /** A valid broken-down time is recovered from the seconds it denotes. */
  lemma FieldsOfSeconds(f: Fields)
    requires ValidFields(f)
    ensures FieldsOf(SecondsOfFields(f)) == f
  {
    FieldsOfDayAndTime(f);
    CivilOfDays(f.year, f.month, f.day);
  }

  /** The seconds of a broken-down time split back into its day and its time of day. */
  lemma FieldsOfDayAndTime(f: Fields)
    requires 1 <= f.month <= 12 && 0 <= f.hour < 24 && 0 <= f.minute < 60 && 0 <= f.second < 60
    ensures var date := CivilFromDays(DaysFromCivil(f.year, f.month, f.day));
      FieldsOf(SecondsOfFields(f)) == Fields(date.year, date.month, date.day, f.hour, f.minute, f.second)
  {
    TimeOfDayJoin(DaysFromCivil(f.year, f.month, f.day), f.hour, f.minute, f.second);
  }

  /** The day count and the hour of the day of a timestamp are its date and its hour field. */
  lemma DayAndHourOf(t: Timestamp)
    ensures var f := Parse(t);
      var z := DaysFromCivil(f.year, f.month, f.day);
      SecondsOf(t) / 86400 == z && SecondsOf(t) % 86400 / 3600 == f.hour
      && CivilFromDays(z) == Date(f.year, f.month, f.day)
  {
    var f := Parse(t);
    TimeOfDayJoin(DaysFromCivil(f.year, f.month, f.day), f.hour, f.minute, f.second);
    CivilOfDays(f.year, f.month, f.day);
  }

  /** The year check is a range check on local seconds. */
  lemma YearRangeBounds(secs: int)
    ensures InYearRange(secs) <==> MinLocalSeconds <= secs <= MaxLocalSeconds
  {
    var z := secs / 86400;
    assert Jan1(1) == -719162 && Jan1(10000) == 2932897;
    assert MinLocalSeconds <= secs <= MaxLocalSeconds <==> Jan1(1) <= z < Jan1(10000);
    var y := YearContaining(z);
    YearOfDay(z, y);
    if y < 1 {
      Jan1Monotone(y + 1, 1);
    } else if y > 9999 {
      Jan1Monotone(10000, y);
    } else {
      Jan1Monotone(1, y);
      Jan1Monotone(y + 1, 10000);
    }
  }

  // ---------------------------------------------------------------------
  // Order

  /**
   String order as Spark compares `start_time` values: lexicographic on
   characters, a proper prefix coming first.
   */
  predicate LexLe(a: string, b: string)
    decreases |a|
  {
    |a| == 0 || (|b| > 0 && (a[0] < b[0] || (a[0] == b[0] && LexLe(a[1..], b[1..]))))
  }

  lemma {:induction false} LexLeTotal(a: string, b: string)
    ensures LexLe(a, b) || LexLe(b, a)
    decreases |a|
  {
    if |a| > 0 && |b| > 0 && a[0] == b[0] {
      LexLeTotal(a[1..], b[1..]);
    }
  }

  lemma {:induction false} LexLeTransitive(a: string, b: string, c: string)
    requires LexLe(a, b) && LexLe(b, c)
    ensures LexLe(a, c)
    decreases |a|
  {
    if |a| > 0 && a[0] == b[0] && b[0] == c[0] {
      LexLeTransitive(a[1..], b[1..], c[1..]);
    }
  }

  /** Comparing equal-length heads first decides the order of two concatenations. */
  lemma {:induction false} LexLeConcat(a1: string, a2: string, b1: string, b2: string)
    requires |a1| == |b1|
    ensures LexLe(a1 + a2, b1 + b2) <==> if a1 == b1 then LexLe(a2, b2) else LexLe(a1, b1)
    decreases |a1|
  {
    if |a1| == 0 {
      assert a1 + a2 == a2 && b1 + b2 == b2;
    } else {
      assert (a1 + a2)[1..] == a1[1..] + a2;
      assert (b1 + b2)[1..] == b1[1..] + b2;
      LexLeConcat(a1[1..], a2, b1[1..], b2);
      if a1[0] == b1[0] {
        assert a1 == b1 <==> a1[1..] == b1[1..] by {
          assert a1 == [a1[0]] + a1[1..] && b1 == [b1[0]] + b1[1..];
        }
      }
    }
  }

  lemma Pad2Order(n: int, m: int)
    requires 0 <= n < 100 && 0 <= m < 100
    ensures LexLe(Pad2(n), Pad2(m)) <==> n <= m
    ensures Pad2(n) == Pad2(m) <==> n == m
  {
    var s, t := Pad2(n), Pad2(m);
    assert LexLe(s, t) <==> s[0] < t[0] || (s[0] == t[0] && LexLe(s[1..], t[1..]));
    assert LexLe(s[1..], t[1..]) <==> s[1] <= t[1] by {
      assert LexLe(s[2..], t[2..]);
    }
  }

  lemma Pad4Order(n: int, m: int)
    requires 0 <= n < 10000 && 0 <= m < 10000
    ensures LexLe(Pad4(n), Pad4(m)) <==> n <= m
    ensures Pad4(n) == Pad4(m) <==> n == m
  {
    LexLeConcat(Pad2(n / 100), Pad2(n % 100), Pad2(m / 100), Pad2(m % 100));
    Pad2Order(n / 100, m / 100);
    Pad2Order(n % 100, m % 100);
    if Pad4(n) == Pad4(m) {
      assert Pad4(n)[..2] == Pad2(n / 100) && Pad4(m)[..2] == Pad2(m / 100);
      assert Pad4(n)[2..] == Pad2(n % 100) && Pad4(m)[2..] == Pad2(m % 100);
    }
  }

  lemma Field2Order(sep: char, n: int, m: int)
    requires 0 <= n < 100 && 0 <= m < 100
    ensures LexLe(Field2(sep, n), Field2(sep, m)) <==> n <= m
    ensures Field2(sep, n) == Field2(sep, m) <==> n == m
  {
    LexLeConcat([sep], Pad2(n), [sep], Pad2(m));
    Pad2Order(n, m);
    if Field2(sep, n) == Field2(sep, m) {
      assert Field2(sep, n)[1..] == Field2(sep, m)[1..];
    }
  }

  /** Lexicographic order of the six fields, year first. */
  predicate FieldsLe(f: Fields, g: Fields) {
    if f.year != g.year then f.year < g.year
    else if f.month != g.month then f.month < g.month
    else if f.day != g.day then f.day < g.day
    else if f.hour != g.hour then f.hour < g.hour
    else if f.minute != g.minute then f.minute < g.minute
    else f.second <= g.second
  }

  /** Fixed-width fields make string order the order of the fields. */
  lemma ComposeOrder(f: Fields, g: Fields)
    requires ValidFields(f) && ValidFields(g)
    ensures LexLe(Compose(f), Compose(g)) <==> FieldsLe(f, g)
  {
    var s5, t5 := Field2(':', f.second), Field2(':', g.second);
    var s4, t4 := Field2(':', f.minute) + s5, Field2(':', g.minute) + t5;
    var s3, t3 := Field2(' ', f.hour) + s4, Field2(' ', g.hour) + t4;
    var s2, t2 := Field2('-', f.day) + s3, Field2('-', g.day) + t3;
    var s1, t1 := Field2('-', f.month) + s2, Field2('-', g.month) + t2;
    assert Compose(f) == Pad4(f.year) + s1 && Compose(g) == Pad4(g.year) + t1;
    Pad4Order(f.year, g.year);
    LexLeConcat(Pad4(f.year), s1, Pad4(g.year), t1);
    Field2Order('-', f.month, g.month);
    LexLeConcat(Field2('-', f.month), s2, Field2('-', g.month), t2);
    Field2Order('-', f.day, g.day);
    LexLeConcat(Field2('-', f.day), s3, Field2('-', g.day), t3);
    Field2Order(' ', f.hour, g.hour);
    LexLeConcat(Field2(' ', f.hour), s4, Field2(' ', g.hour), t4);
    Field2Order(':', f.minute, g.minute);
    LexLeConcat(Field2(':', f.minute), s5, Field2(':', g.minute), t5);
    Field2Order(':', f.second, g.second);
  }

  /** Field order is time order. */
  lemma FieldsOrder(f: Fields, g: Fields)
    requires ValidFields(f) && ValidFields(g)
    ensures FieldsLe(f, g) <==> SecondsOfFields(f) <= SecondsOfFields(g)
  {
    DaysFromCivilOrder(f.year, f.month, f.day, g.year, g.month, g.day);
    DaysFromCivilOrder(g.year, g.month, g.day, f.year, f.month, f.day);
    var z, z' := DaysFromCivil(f.year, f.month, f.day), DaysFromCivil(g.year, g.month, g.day);
    var sod, sod' := f.hour * 3600 + f.minute * 60 + f.second, g.hour * 3600 + g.minute * 60 + g.second;
    assert 0 <= sod < 86400 && 0 <= sod' < 86400;
    if z < z' {
      assert z * 86400 + sod < z' * 86400 + sod';
    } else if z' < z {
      assert z' * 86400 + sod' < z * 86400 + sod;
    }
  }

  /** Spark orders `start_time` strings exactly as the times they denote. */
  lemma TimestampOrder(s: Timestamp, t: Timestamp)
    ensures LexLe(s, t) <==> SecondsOf(s) <= SecondsOf(t)
  {
    ComposeParse(s);
    ComposeParse(t);
    ComposeOrder(Parse(s), Parse(t));
    FieldsOrder(Parse(s), Parse(t));
  }
}
