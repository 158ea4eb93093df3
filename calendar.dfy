/** The export timestamp of `build_corrections_export`: seconds since the
    Unix epoch turned into a proleptic Gregorian UTC date and time by
    counting whole years and then whole months, and printed as
    `YYYY-MM-DDTHH:MM:SSZ`, the date-time form of section 5.6 of RFC 3339. */
module Calendar {
  import opened Wrappers
  import opened Text

  /** The Gregorian leap-year rule. */
  predicate IsLeap(y: int) {
    y % 4 == 0 && (y % 100 != 0 || y % 400 == 0)
  }

  function YearDays(y: int): nat {
    if IsLeap(y) then 366 else 365
  }

  /** The `month_days` table of year `y`; index 0 is January. */
  function MonthLengths(y: int): (r: seq<nat>)
    ensures |r| == 12
    ensures forall i :: 0 <= i < 12 ==> 28 <= r[i] <= 31
  {
    [31, if IsLeap(y) then 29 else 28, 31, 30, 31, 30, 31, 31, 30, 31, 30, 31]
  }

  /** Days in the first `m` months of year `y`. */
  function DaysBeforeMonth(y: int, m: nat): nat
    requires m <= 12
  {
    if m == 0 then 0 else DaysBeforeMonth(y, m - 1) + MonthLengths(y)[m - 1]
  }

  /** Days from 1970-01-01 to the first day of year `y`. */
  function DaysBeforeYear(y: int): nat
    requires y >= 1970
    decreases y - 1970
  {
    if y == 1970 then 0 else DaysBeforeYear(y - 1) + YearDays(y - 1)
  }

  /** The twelve months make up the year. */
  lemma MonthsFillYear(y: int)
    ensures DaysBeforeMonth(y, 12) == YearDays(y)
  {
    var feb := if IsLeap(y) then 29 else 28;
    assert DaysBeforeMonth(y, 1) == 31;
    assert DaysBeforeMonth(y, 2) == 31 + feb;
    assert DaysBeforeMonth(y, 3) == 62 + feb;
    assert DaysBeforeMonth(y, 4) == 92 + feb;
    assert DaysBeforeMonth(y, 5) == 123 + feb;
    assert DaysBeforeMonth(y, 6) == 153 + feb;
    assert DaysBeforeMonth(y, 7) == 184 + feb;
    assert DaysBeforeMonth(y, 8) == 215 + feb;
    assert DaysBeforeMonth(y, 9) == 245 + feb;
    assert DaysBeforeMonth(y, 10) == 276 + feb;
    assert DaysBeforeMonth(y, 11) == 306 + feb;
  }

  lemma {:induction false} DaysBeforeMonthGrows(y: int, a: nat, b: nat)
    requires a <= b <= 12
    ensures DaysBeforeMonth(y, a) <= DaysBeforeMonth(y, b)
    ensures a < b ==> DaysBeforeMonth(y, a) + MonthLengths(y)[a] <= DaysBeforeMonth(y, b)
    decreases b
  {
    if a < b {
      DaysBeforeMonthGrows(y, a, b - 1);
    }
  }

  lemma {:induction false} DaysBeforeYearGrows(a: int, b: int)
    requires 1970 <= a < b
    ensures DaysBeforeYear(a) + YearDays(a) <= DaysBeforeYear(b)
    decreases b - a
  {
    if a + 1 < b {
      DaysBeforeYearGrows(a, b - 1);
    }
  }

  /** The loops of `build_corrections_export`: subtract whole years from 1970
      on, then whole months, while at least that many days remain. The result
      is the year, the month index (0 = January) and the day index within
      the month. */
  method CivilFromDays(days: nat) returns (y: int, m: nat, d: nat)
    ensures y >= 1970 && m < 12 && d < MonthLengths(y)[m]
    ensures DaysBeforeYear(y) + DaysBeforeMonth(y, m) + d == days
  {
    y := 1970;
    var remaining: nat := days;
    while remaining >= YearDays(y)
      invariant y >= 1970
      invariant DaysBeforeYear(y) + remaining == days
      decreases remaining
    {
      remaining := remaining - YearDays(y);
      y := y + 1;
    }
    ghost var inYear := remaining;
    MonthsFillYear(y);
    var monthDays := MonthLengths(y);
    m := 0;
    while m < 12
      invariant m <= 12
      invariant DaysBeforeMonth(y, m) + remaining == inYear
    {
      if remaining < monthDays[m] {
        break;
      }
      remaining := remaining - monthDays[m];
      m := m + 1;
    }
    d := remaining;
  }

  /** A UTC date and time with a 1-based month and day. */
  datatype DateTime = DateTime(year: int, month: nat, day: nat, hour: nat, minute: nat, second: nat)

  predicate ValidDateTime(t: DateTime) {
    && t.year >= 1970
    && 1 <= t.month <= 12
    && 1 <= t.day <= MonthLengths(t.year)[t.month - 1]
    && t.hour < 24 && t.minute < 60 && t.second < 60
  }

  /** Seconds since 1970-01-01T00:00:00Z, leap seconds not counted. */
  function EpochSeconds(t: DateTime): int
    requires t.year >= 1970 && 1 <= t.month <= 12
  {
    (DaysBeforeYear(t.year) + DaysBeforeMonth(t.year, t.month - 1) + t.day - 1) * 86400
      + t.hour * 3600 + t.minute * 60 + t.second
  }

  lemma DivModUnique(q1: int, r1: int, q2: int, r2: int, n: int)
    requires n > 0 && 0 <= r1 < n && 0 <= r2 < n && q1 * n + r1 == q2 * n + r2
    ensures q1 == q2 && r1 == r2
  {
    if q1 < q2 {
      MulAtLeast(q2 - q1, n);
    } else if q2 < q1 {
      MulAtLeast(q1 - q2, n);
    }
  }

  lemma MulAtLeast(k: int, n: int)
    requires k >= 1 && n > 0
    ensures k * n >= n
  {
  }

  /** Two valid date-times that denote the same instant are the same. */
  lemma EpochSecondsInjective(a: DateTime, b: DateTime)
    requires ValidDateTime(a) && ValidDateTime(b) && EpochSeconds(a) == EpochSeconds(b)
    ensures a == b
  {
    var da := DaysBeforeYear(a.year) + DaysBeforeMonth(a.year, a.month - 1) + a.day - 1;
    var db := DaysBeforeYear(b.year) + DaysBeforeMonth(b.year, b.month - 1) + b.day - 1;
    DivModUnique(da, a.hour * 3600 + a.minute * 60 + a.second, db, b.hour * 3600 + b.minute * 60 + b.second, 86400);
    DivModUnique(a.hour, a.minute * 60 + a.second, b.hour, b.minute * 60 + b.second, 3600);
    DivModUnique(a.minute, a.second, b.minute, b.second, 60);
    SameDayIndex(a.year, a.month, a.day, b.year, b.month, b.day);
  }

  lemma DayInYear(y: int, m: nat, d: nat)
    requires y >= 1970 && 1 <= m <= 12 && 1 <= d <= MonthLengths(y)[m - 1]
    ensures DaysBeforeMonth(y, m - 1) + d - 1 < YearDays(y)
  {
    DaysBeforeMonthGrows(y, m - 1, 12);
    MonthsFillYear(y);
  }

  lemma SameDayIndex(ya: int, ma: nat, a: nat, yb: int, mb: nat, b: nat)
    requires ya >= 1970 && 1 <= ma <= 12 && 1 <= a <= MonthLengths(ya)[ma - 1]
    requires yb >= 1970 && 1 <= mb <= 12 && 1 <= b <= MonthLengths(yb)[mb - 1]
    requires DaysBeforeYear(ya) + DaysBeforeMonth(ya, ma - 1) + a - 1 == DaysBeforeYear(yb) + DaysBeforeMonth(yb, mb - 1) + b - 1
    ensures ya == yb && ma == mb && a == b
  {
    DayInYear(ya, ma, a);
    DayInYear(yb, mb, b);
    if ya < yb {
      DaysBeforeYearGrows(ya, yb);
    } else if yb < ya {
      DaysBeforeYearGrows(yb, ya);
    }
    if ma < mb {
      DaysBeforeMonthGrows(ya, ma - 1, mb - 1);
    } else if mb < ma {
      DaysBeforeMonthGrows(ya, mb - 1, ma - 1);
    }
  }

  /** The date and time arithmetic of `build_corrections_export`: whole days
      and the time of day, then the calendar loops. The result is the one
      valid date-time at `secs` seconds after the epoch. */
  method UtcFromEpochSeconds(secs: nat) returns (t: DateTime)
    ensures ValidDateTime(t) && EpochSeconds(t) == secs
  {
    var days := secs / 86400;
    var timeOfDay := secs % 86400;
    var hours := timeOfDay / 3600;
    var minutes := (timeOfDay % 3600) / 60;
    var seconds := timeOfDay % 60;
    var y, m, d := CivilFromDays(days);
    t := DateTime(y, m + 1, d + 1, hours, minutes, seconds);
    assert timeOfDay == hours * 3600 + minutes * 60 + seconds;
  }

  /** `format!("{:04}-{:02}-{:02}T{:02}:{:02}:{:02}Z", …)`. */
  function FormatRfc3339(t: DateTime): string
    requires t.year >= 0
  {
    PadDecimal(t.year, 4) + "-" + PadDecimal(t.month, 2) + "-" + PadDecimal(t.day, 2)
      + "T" + PadDecimal(t.hour, 2) + ":" + PadDecimal(t.minute, 2) + ":" + PadDecimal(t.second, 2) + "Z"
  }

  /** Reads a `YYYY-MM-DDTHH:MM:SSZ` string back into its fields. */
  function ParseRfc3339(s: string): Option<DateTime> {
    if |s| == 20 && s[4] == '-' && s[7] == '-' && s[10] == 'T' && s[13] == ':' && s[16] == ':' && s[19] == 'Z'
       && AllDigits(s[0..4]) && AllDigits(s[5..7]) && AllDigits(s[8..10])
       && AllDigits(s[11..13]) && AllDigits(s[14..16]) && AllDigits(s[17..19])
    then Some(DateTime(DigitsValue(s[0..4]), DigitsValue(s[5..7]), DigitsValue(s[8..10]),
                       DigitsValue(s[11..13]), DigitsValue(s[14..16]), DigitsValue(s[17..19])))
    else None
  }

  lemma PadFits(n: nat, w: nat)
    requires w >= 1 && n < Pow10(w)
    ensures |PadDecimal(n, w)| == w
  {
    NatToStringShort(n, w);
  }

  /** Every field of a valid date-time before year 10000 is printed at its
      fixed width, so the text reads back as the same date-time. */
  lemma FormatParsesBack(t: DateTime)
    requires ValidDateTime(t) && t.year <= 9999
    ensures |FormatRfc3339(t)| == 20
    ensures ParseRfc3339(FormatRfc3339(t)) == Some(t)
  {
    assert Pow10(2) == 100;
    assert Pow10(4) == 10000;
    var y, mo, d := PadDecimal(t.year, 4), PadDecimal(t.month, 2), PadDecimal(t.day, 2);
    var h, mi, s := PadDecimal(t.hour, 2), PadDecimal(t.minute, 2), PadDecimal(t.second, 2);
    PadFits(t.year, 4);
    PadFits(t.month, 2);
    PadFits(t.day, 2);
    PadFits(t.hour, 2);
    PadFits(t.minute, 2);
    PadFits(t.second, 2);
    PadDecimalRoundTrip(t.year, 4);
    PadDecimalRoundTrip(t.month, 2);
    PadDecimalRoundTrip(t.day, 2);
    PadDecimalRoundTrip(t.hour, 2);
    PadDecimalRoundTrip(t.minute, 2);
    PadDecimalRoundTrip(t.second, 2);
    FieldsAtFixedOffsets(y, mo, d, h, mi, s);
  }

  /** Where each field of the `YYYY-MM-DDTHH:MM:SSZ` layout lands. */
  lemma FieldsAtFixedOffsets(y: string, mo: string, d: string, h: string, mi: string, s: string)
    requires |y| == 4 && |mo| == 2 && |d| == 2 && |h| == 2 && |mi| == 2 && |s| == 2
    ensures var r := y + "-" + mo + "-" + d + "T" + h + ":" + mi + ":" + s + "Z";
      && |r| == 20 && r[4] == '-' && r[7] == '-' && r[10] == 'T' && r[13] == ':' && r[16] == ':' && r[19] == 'Z'
      && r[0..4] == y && r[5..7] == mo && r[8..10] == d && r[11..13] == h && r[14..16] == mi && r[17..19] == s
  {
    var date := y + "-" + mo + "-" + d;
    var time := h + ":" + mi + ":" + s;
    assert date[0..4] == y && date[5..7] == mo && date[8..10] == d;
    assert time[0..2] == h && time[3..5] == mi && time[6..8] == s;
    var r := date + "T" + time + "Z";
    assert r == y + "-" + mo + "-" + d + "T" + h + ":" + mi + ":" + s + "Z";
    assert r[0..4] == date[0..4] && r[5..7] == date[5..7] && r[8..10] == date[8..10];
    assert r[11..13] == time[0..2] && r[14..16] == time[3..5] && r[17..19] == time[6..8];
  }

  /** The `exported_at` text for `secs` seconds after the epoch, with the
      date-time it denotes. */
  method ExportTimestamp(secs: nat) returns (t: DateTime, text: string)
    ensures ValidDateTime(t) && EpochSeconds(t) == secs
    ensures text == FormatRfc3339(t)
  {
    t := UtcFromEpochSeconds(secs);
    text := FormatRfc3339(t);
  }
}
