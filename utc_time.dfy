/** The part of Python's `datetime` that the maintenance plugin relies on:
    `datetime.strptime(s, '%Y-%m-%dT%H:%M:%SZ')`, `strftime` with the same
    format, and adding `timedelta(microseconds=1)`. */
module UtcTime {
  import opened Wrappers
  import opened Text

  datatype DateTime = DateTime(
    year: int, month: int, day: int,
    hour: int, minute: int, second: int, microsecond: int)

  predicate IsLeapYear(y: int) {
    y % 4 == 0 && (y % 100 != 0 || y % 400 == 0)
  }

  function DaysInMonth(y: int, m: int): (d: int)
    requires 1 <= m <= 12
    ensures 28 <= d <= 31
  {
    if m == 2 then (if IsLeapYear(y) then 29 else 28)
    else if m == 4 || m == 6 || m == 9 || m == 11 then 30
    else 31
  }

  /** The values a `datetime` object can hold (MINYEAR 1, MAXYEAR 9999). */
  predicate Valid(dt: DateTime) {
    && 1 <= dt.year <= 9999
    && 1 <= dt.month <= 12
    && 1 <= dt.day <= DaysInMonth(dt.year, dt.month)
    && 0 <= dt.hour <= 23
    && 0 <= dt.minute <= 59
    && 0 <= dt.second <= 59
    && 0 <= dt.microsecond <= 999999
  }

  /** The type of Python `datetime` objects. */
  type ValidDateTime = dt: DateTime | Valid(dt) witness DateTime(1, 1, 1, 0, 0, 0, 0)

  /** Chronological order: the fields compared from the year down. */
  predicate Before(a: DateTime, b: DateTime) {
    if a.year != b.year then a.year < b.year
    else if a.month != b.month then a.month < b.month
    else if a.day != b.day then a.day < b.day
    else if a.hour != b.hour then a.hour < b.hour
    else if a.minute != b.minute then a.minute < b.minute
    else if a.second != b.second then a.second < b.second
    else a.microsecond < b.microsecond
  }

  /** Twenty characters: six digit fields `DDDD`, `DD`, ... separated by
      `-`, `-`, (position 10), `:`, `:` and followed by position 19. */
  predicate HasDigitFields(s: string) {
    && |s| == 20
    && AllDigits(s[0..4]) && s[4] == '-'
    && AllDigits(s[5..7]) && s[7] == '-'
    && AllDigits(s[8..10])
    && AllDigits(s[11..13]) && s[13] == ':'
    && AllDigits(s[14..16]) && s[16] == ':'
    && AllDigits(s[17..19])
  }

  /** The textual shape `DDDD-DD-DDTDD:DD:DDZ` with ASCII digits. */
  predicate IsTimestampShape(s: string) {
    HasDigitFields(s) && s[10] == 'T' && s[19] == 'Z'
  }

  /** The shape `strptime` reads: its pattern is compiled case-insensitively,
      so the literal `T` and `Z` may also be written `t` and `z`. */
  predicate IsStrptimeShape(s: string) {
    HasDigitFields(s) && (s[10] == 'T' || s[10] == 't') && (s[19] == 'Z' || s[19] == 'z')
  }

  /** The fields of a string of timestamp shape, before any range check. */
  function Fields(s: string): DateTime
    requires HasDigitFields(s)
  {
    DateTime(DecimalValue(s[0..4]), DecimalValue(s[5..7]), DecimalValue(s[8..10]),
             DecimalValue(s[11..13]), DecimalValue(s[14..16]), DecimalValue(s[17..19]), 0)
  }

  /** `datetime.strptime(s, '%Y-%m-%dT%H:%M:%SZ')`; `None` stands for the
      `ValueError` raised on a string of another shape or on a field out of
      range (month 13, February 30, second 60, year 0). */
  function Parse(s: string): (r: Option<DateTime>)
    ensures r.Some? <==> IsStrptimeShape(s) && Valid(Fields(s))
    ensures r.Some? ==> Valid(r.value) && r.value.microsecond == 0
  {
    if IsStrptimeShape(s) && Valid(Fields(s)) then Some(Fields(s)) else None
  }

  /** The text `y-mo-dThh:mi:seZ` put together from its six fields. */
  function Assemble(y: string, mo: string, d: string, h: string, mi: string, se: string): string {
    y + "-" + mo + "-" + d + "T" + h + ":" + mi + ":" + se + "Z"
  }

  /** The fields of an assembled timestamp sit at fixed positions. */
  lemma AssembledSlices(y: string, mo: string, d: string, h: string, mi: string, se: string)
    requires |y| == 4 && |mo| == 2 && |d| == 2 && |h| == 2 && |mi| == 2 && |se| == 2
    ensures var s := Assemble(y, mo, d, h, mi, se);
      && |s| == 20
      && s[0..4] == y && s[5..7] == mo && s[8..10] == d
      && s[11..13] == h && s[14..16] == mi && s[17..19] == se
      && s[4] == '-' && s[7] == '-' && s[10] == 'T' && s[13] == ':' && s[16] == ':' && s[19] == 'Z'
  {
  }

  /** `dt.strftime('%Y-%m-%dT%H:%M:%SZ')`; the microseconds are not shown. */
  function Format(dt: DateTime): (s: string)
    requires Valid(dt)
    ensures IsTimestampShape(s)
  {
    var y, mo, d := PadDecimal(dt.year, 4), PadDecimal(dt.month, 2), PadDecimal(dt.day, 2);
    var h, mi, se := PadDecimal(dt.hour, 2), PadDecimal(dt.minute, 2), PadDecimal(dt.second, 2);
    AssembledSlices(y, mo, d, h, mi, se);
    Assemble(y, mo, d, h, mi, se)
  }

  /** Python 2's `dt.strftime('%Y-%m-%dT%H:%M:%SZ')`, which writes
      `Format(dt)`; `None` is the `ValueError` it raises for a year before
      1900. */
  function Strftime(dt: DateTime): (r: Option<string>)
    requires Valid(dt)
    ensures r.Some? <==> dt.year >= 1900
    ensures r.Some? ==> r.value == Format(dt)
  {
    if dt.year < 1900 then None else Some(Format(dt))
  }

  /** `dt + timedelta(microseconds=1)`; `None` is the `OverflowError` past
      9999-12-31 23:59:59.999999. */
  function AddMicrosecond(dt: DateTime): (r: Option<DateTime>)
    requires Valid(dt)
    ensures r.Some? ==> Valid(r.value) && Before(dt, r.value)
    ensures dt.microsecond < 999999 ==> r == Some(dt.(microsecond := dt.microsecond + 1))
    ensures r.None? <==> dt == DateTime(9999, 12, 31, 23, 59, 59, 999999)
  {
    if dt.microsecond < 999999 then Some(dt.(microsecond := dt.microsecond + 1))
    else if dt.second < 59 then Some(dt.(second := dt.second + 1, microsecond := 0))
    else if dt.minute < 59 then Some(dt.(minute := dt.minute + 1, second := 0, microsecond := 0))
    else if dt.hour < 23 then Some(dt.(hour := dt.hour + 1, minute := 0, second := 0, microsecond := 0))
    else if dt.day < DaysInMonth(dt.year, dt.month) then
      Some(DateTime(dt.year, dt.month, dt.day + 1, 0, 0, 0, 0))
    else if dt.month < 12 then Some(DateTime(dt.year, dt.month + 1, 1, 0, 0, 0, 0))
    else if dt.year < 9999 then Some(DateTime(dt.year + 1, 1, 1, 0, 0, 0, 0))
    else None
  }

  /** Two texts of twenty characters that agree on the six fields and the
      five separators of a timestamp are equal. */
  lemma SameTimestampText(f: string, s: string)
    requires |f| == 20 && |s| == 20
    requires f[0..4] == s[0..4] && f[5..7] == s[5..7] && f[8..10] == s[8..10]
    requires f[11..13] == s[11..13] && f[14..16] == s[14..16] && f[17..19] == s[17..19]
    requires f[4] == s[4] && f[7] == s[7] && f[10] == s[10] && f[13] == s[13] && f[16] == s[16] && f[19] == s[19]
    ensures f == s
  {
    forall i | 0 <= i < 20 ensures f[i] == s[i] {
      if i < 4 { assert f[i] == f[0..4][i] && s[i] == s[0..4][i]; }
      else if 5 <= i < 7 { assert f[i] == f[5..7][i - 5] && s[i] == s[5..7][i - 5]; }
      else if 8 <= i < 10 { assert f[i] == f[8..10][i - 8] && s[i] == s[8..10][i - 8]; }
      else if 11 <= i < 13 { assert f[i] == f[11..13][i - 11] && s[i] == s[11..13][i - 11]; }
      else if 14 <= i < 16 { assert f[i] == f[14..16][i - 14] && s[i] == s[14..16][i - 14]; }
      else if 17 <= i < 19 { assert f[i] == f[17..19][i - 17] && s[i] == s[17..19][i - 17]; }
    }
  }

  /** The fields of a formatted timestamp are the zero-padded fields of the
      datetime. */
  lemma FormatSlices(dt: DateTime)
    requires Valid(dt)
    ensures var s := Format(dt);
      && s[0..4] == PadDecimal(dt.year, 4) && s[5..7] == PadDecimal(dt.month, 2)
      && s[8..10] == PadDecimal(dt.day, 2) && s[11..13] == PadDecimal(dt.hour, 2)
      && s[14..16] == PadDecimal(dt.minute, 2) && s[17..19] == PadDecimal(dt.second, 2)
      && s[4] == '-' && s[7] == '-' && s[10] == 'T' && s[13] == ':' && s[16] == ':' && s[19] == 'Z'
  {
    AssembledSlices(PadDecimal(dt.year, 4), PadDecimal(dt.month, 2), PadDecimal(dt.day, 2),
                    PadDecimal(dt.hour, 2), PadDecimal(dt.minute, 2), PadDecimal(dt.second, 2));
  }

  /** The digit fields of a formatted timestamp hold the fields it was
      written from. */
  lemma FieldsOfFormat(dt: DateTime)
    requires Valid(dt)
    ensures Fields(Format(dt)) == dt.(microsecond := 0)
  {
    FormatSlices(dt);
    DecimalValueOfPad(dt.year, 4);
    DecimalValueOfPad(dt.month, 2);
    DecimalValueOfPad(dt.day, 2);
    DecimalValueOfPad(dt.hour, 2);
    DecimalValueOfPad(dt.minute, 2);
    DecimalValueOfPad(dt.second, 2);
  }

  /** Parsing what `Format` wrote recovers the datetime up to its
      microseconds. */
  lemma ParseFormat(dt: DateTime)
    requires Valid(dt)
    ensures Parse(Format(dt)) == Some(dt.(microsecond := 0))
  {
    FieldsOfFormat(dt);
  }

  /** Formatting the fields of a timestamp writes it back. */
  lemma FormatFields(s: string)
    requires IsTimestampShape(s) && Valid(Fields(s))
    ensures Format(Fields(s)) == s
  {
    var dt := Fields(s);
    FormatSlices(dt);
    FieldsWriteBack(s);
    SameTimestampText(Format(dt), s);
  }

  /** Each field read from a text, written back zero-padded, gives the
      field's digits. */
  lemma FieldsWriteBack(s: string)
    requires HasDigitFields(s)
    ensures var dt := Fields(s);
      && PadDecimal(dt.year, 4) == s[0..4] && PadDecimal(dt.month, 2) == s[5..7]
      && PadDecimal(dt.day, 2) == s[8..10] && PadDecimal(dt.hour, 2) == s[11..13]
      && PadDecimal(dt.minute, 2) == s[14..16] && PadDecimal(dt.second, 2) == s[17..19]
  {
    PadOfDecimalValue(s[0..4], 4);
    PadOfDecimalValue(s[5..7], 2);
    PadOfDecimalValue(s[8..10], 2);
    PadOfDecimalValue(s[11..13], 2);
    PadOfDecimalValue(s[14..16], 2);
    PadOfDecimalValue(s[17..19], 2);
  }

  /** Upper-casing a text `strptime` reads gives the timestamp shape with the
      same fields. */
  lemma UpperOfStrptimeShape(s: string)
    requires IsStrptimeShape(s)
    ensures IsTimestampShape(Upper(s)) && Fields(Upper(s)) == Fields(s)
  {
    var u := Upper(s);
    assert u[0..4] == s[0..4] && u[5..7] == s[5..7] && u[8..10] == s[8..10];
    assert u[11..13] == s[11..13] && u[14..16] == s[14..16] && u[17..19] == s[17..19];
  }

  /** Lower-casing a timestamp gives a text `strptime` reads the same way,
      with a `t` and a `z`. */
  lemma LowerOfTimestampShape(s: string)
    requires IsTimestampShape(s)
    ensures IsStrptimeShape(Lower(s)) && Fields(Lower(s)) == Fields(s)
    ensures Lower(s)[10] == 't' && Lower(s)[19] == 'z'
  {
    var l := Lower(s);
    assert l[0..4] == s[0..4] && l[5..7] == s[5..7] && l[8..10] == s[8..10];
    assert l[11..13] == s[11..13] && l[14..16] == s[14..16] && l[17..19] == s[17..19];
  }

  /** Upper-casing leaves a text of timestamp shape as it is. */
  lemma UpperOfTimestampShape(s: string)
    requires IsTimestampShape(s)
    ensures Upper(s) == s
  {
    forall i | 0 <= i < |s| ensures Upper(s)[i] == s[i] {
      if i < 4 { assert s[i] == s[0..4][i]; }
      else if 5 <= i < 7 { assert s[i] == s[5..7][i - 5]; }
      else if 8 <= i < 10 { assert s[i] == s[8..10][i - 8]; }
      else if 11 <= i < 13 { assert s[i] == s[11..13][i - 11]; }
      else if 14 <= i < 16 { assert s[i] == s[14..16][i - 14]; }
      else if 17 <= i < 19 { assert s[i] == s[17..19][i - 17]; }
    }
  }

  /** Formatting a parsed timestamp writes the original string back, with
      a `t` or `z` written upper-case. */
  lemma FormatParse(s: string)
    requires Parse(s).Some?
    ensures Format(Parse(s).value) == Upper(s)
    ensures IsTimestampShape(s) ==> Format(Parse(s).value) == s
  {
    UpperOfStrptimeShape(s);
    FormatFields(Upper(s));
    if IsTimestampShape(s) {
      UpperOfTimestampShape(s);
    }
  }

  /** Adding a microsecond to a time on a whole second changes no field
      that `Format` shows. */
  lemma FormatAddMicrosecond(dt: DateTime)
    requires Valid(dt) && dt.microsecond == 0
    ensures AddMicrosecond(dt).Some?
    ensures Format(AddMicrosecond(dt).value) == Format(dt)
  {
  }

  // ---------------------------------------------------------------------
  // Microsecond ordinal: the number of microseconds since
  // 0001-01-01 00:00:00 in the proleptic Gregorian calendar, the count
  // `timedelta` arithmetic works on.

  function DaysInYear(y: int): int {
    if IsLeapYear(y) then 366 else 365
  }

  /** Days in the years 1 .. y-1. */
  function DaysBeforeYear(y: int): int {
    var p := y - 1;
    365 * p + p / 4 - p / 100 + p / 400
  }

  /** Days in the months 1 .. m-1 of year y. */
  function DaysBeforeMonth(y: int, m: int): (d: int)
    requires 1 <= m <= 13
    ensures 28 * (m - 1) <= d <= 31 * (m - 1)
  {
    if m == 1 then 0 else DaysBeforeMonth(y, m - 1) + DaysInMonth(y, m - 1)
  }

  /** The microseconds since midnight. */
  function TimeOfDay(dt: DateTime): int {
    ((dt.hour * 60 + dt.minute) * 60 + dt.second) * 1_000_000 + dt.microsecond
  }

  /** The days since 0001-01-01. */
  function DayNumber(dt: DateTime): int
    requires 1 <= dt.month <= 12
  {
    DaysBeforeYear(dt.year) + DaysBeforeMonth(dt.year, dt.month) + dt.day - 1
  }

  /** The microseconds since 0001-01-01 00:00:00. */
  function Ord(dt: DateTime): int
    requires 1 <= dt.month <= 12
  {
    DayNumber(dt) * 86_400_000_000 + TimeOfDay(dt)
  }

  /** The days before a year grow by the length of that year. */
  lemma DaysBeforeNextYear(y: int)
    ensures DaysBeforeYear(y + 1) == DaysBeforeYear(y) + DaysInYear(y)
  {
    var q4, q100, q400 := y / 4 - (y - 1) / 4, y / 100 - (y - 1) / 100, y / 400 - (y - 1) / 400;
    assert DaysBeforeYear(y + 1) - DaysBeforeYear(y) == 365 + q4 - q100 + q400;
    QuotientStep(y, 4);
    QuotientStep(y, 100);
    QuotientStep(y, 400);
    MultipleDivides(y);
  }

  /** A multiple of 400 is one of 100, and a multiple of 100 one of 4. */
  lemma MultipleDivides(y: int)
    ensures y % 400 == 0 ==> y % 100 == 0
    ensures y % 100 == 0 ==> y % 4 == 0
  {
    if y % 400 == 0 {
      var k := y / 400;
      assert y == 400 * k;
      MultipleMod(k);
    }
    if y % 100 == 0 {
      var k := y / 100;
      assert y == 100 * k;
      MultipleMod(k);
    }
  }

  lemma MultipleMod(k: int)
    ensures (400 * k) % 100 == 0 && (100 * k) % 4 == 0
  {
    assert 400 * k == 100 * (4 * k) + 0;
    assert 100 * k == 4 * (25 * k) + 0;
  }

  /** The quotient by k goes up by one exactly at the multiples of k. */
  lemma QuotientStep(y: int, k: int)
    requires k == 4 || k == 100 || k == 400
    ensures y / k - (y - 1) / k == (if y % k == 0 then 1 else 0)
  {
    if k == 4 {
      assert y / 4 - (y - 1) / 4 == (if y % 4 == 0 then 1 else 0);
    } else if k == 100 {
      assert y / 100 - (y - 1) / 100 == (if y % 100 == 0 then 1 else 0);
    } else {
      assert y / 400 - (y - 1) / 400 == (if y % 400 == 0 then 1 else 0);
    }
  }

  /** The twelve months make up the year. */
  lemma MonthsMakeYear(y: int)
    ensures DaysBeforeMonth(y, 13) == DaysInYear(y)
  {
    assert DaysBeforeMonth(y, 2) == 31;
    assert DaysBeforeMonth(y, 3) == 31 + DaysInMonth(y, 2);
    assert DaysBeforeMonth(y, 4) == 62 + DaysInMonth(y, 2);
    assert DaysBeforeMonth(y, 5) == 92 + DaysInMonth(y, 2);
    assert DaysBeforeMonth(y, 6) == 123 + DaysInMonth(y, 2);
    assert DaysBeforeMonth(y, 7) == 153 + DaysInMonth(y, 2);
    assert DaysBeforeMonth(y, 8) == 184 + DaysInMonth(y, 2);
    assert DaysBeforeMonth(y, 9) == 215 + DaysInMonth(y, 2);
    assert DaysBeforeMonth(y, 10) == 245 + DaysInMonth(y, 2);
    assert DaysBeforeMonth(y, 11) == 276 + DaysInMonth(y, 2);
    assert DaysBeforeMonth(y, 12) == 306 + DaysInMonth(y, 2);
  }

  /** One microsecond later within the same day. */
  lemma SameDayStep(dt: DateTime, r: DateTime)
    requires 1 <= dt.month <= 12 && 1 <= r.month <= 12
    requires DayNumber(r) == DayNumber(dt) && TimeOfDay(r) == TimeOfDay(dt) + 1
    ensures Ord(r) == Ord(dt) + 1
  {
  }

  /** The first instant of the next day is one microsecond after the last
      instant of a day. */
  lemma NextDayStep(dt: DateTime, r: DateTime)
    requires 1 <= dt.month <= 12 && 1 <= r.month <= 12
    requires DayNumber(r) == DayNumber(dt) + 1
    requires TimeOfDay(dt) == 86_399_999_999 && TimeOfDay(r) == 0
    ensures Ord(r) == Ord(dt) + 1
  {
  }

  /** The last instant of a day that is not the last of its month is
      followed by the first instant of the next day. */
  lemma NextDayInMonth(dt: DateTime)
    requires Valid(dt) && TimeOfDay(dt) == 86_399_999_999
    requires dt.day < DaysInMonth(dt.year, dt.month)
    ensures Ord(DateTime(dt.year, dt.month, dt.day + 1, 0, 0, 0, 0)) == Ord(dt) + 1
  {
    NextDayStep(dt, DateTime(dt.year, dt.month, dt.day + 1, 0, 0, 0, 0));
  }

  /** The last instant of a month other than December is followed by the
      first instant of the next month. */
  lemma NextDayInYear(dt: DateTime)
    requires Valid(dt) && TimeOfDay(dt) == 86_399_999_999
    requires dt.day == DaysInMonth(dt.year, dt.month) && dt.month < 12
    ensures Ord(DateTime(dt.year, dt.month + 1, 1, 0, 0, 0, 0)) == Ord(dt) + 1
  {
    assert DaysBeforeMonth(dt.year, dt.month + 1) == DaysBeforeMonth(dt.year, dt.month) + dt.day;
    NextDayStep(dt, DateTime(dt.year, dt.month + 1, 1, 0, 0, 0, 0));
  }

  /** The last instant of a year is followed by the first instant of the
      next year. */
  lemma NextDayInNextYear(dt: DateTime)
    requires Valid(dt) && TimeOfDay(dt) == 86_399_999_999
    requires dt.day == 31 && dt.month == 12
    ensures Ord(DateTime(dt.year + 1, 1, 1, 0, 0, 0, 0)) == Ord(dt) + 1
  {
    DaysBeforeNextYear(dt.year);
    MonthsMakeYear(dt.year);
    assert DaysBeforeMonth(dt.year, 13) == DaysBeforeMonth(dt.year, 12) + 31;
    NextDayStep(dt, DateTime(dt.year + 1, 1, 1, 0, 0, 0, 0));
  }

  /** Adding one microsecond advances the ordinal by exactly one. */
  lemma AddMicrosecondIsNext(dt: DateTime)
    requires Valid(dt) && AddMicrosecond(dt).Some?
    ensures Ord(AddMicrosecond(dt).value) == Ord(dt) + 1
  {
    var r := AddMicrosecond(dt).value;
    if dt.microsecond < 999999 {
      assert r == dt.(microsecond := dt.microsecond + 1);
      SameDayStep(dt, r);
    } else if dt.second < 59 {
      assert r == dt.(second := dt.second + 1, microsecond := 0);
      SameDayStep(dt, r);
    } else if dt.minute < 59 {
      assert r == dt.(minute := dt.minute + 1, second := 0, microsecond := 0);
      SameDayStep(dt, r);
    } else if dt.hour < 23 {
      assert r == dt.(hour := dt.hour + 1, minute := 0, second := 0, microsecond := 0);
      SameDayStep(dt, r);
    } else if dt.day < DaysInMonth(dt.year, dt.month) {
      assert r == DateTime(dt.year, dt.month, dt.day + 1, 0, 0, 0, 0);
      NextDayInMonth(dt);
    } else if dt.month < 12 {
      assert r == DateTime(dt.year, dt.month + 1, 1, 0, 0, 0, 0);
      NextDayInYear(dt);
    } else {
      assert r == DateTime(dt.year + 1, 1, 1, 0, 0, 0, 0);
      NextDayInNextYear(dt);
    }
  }

  /** The time of day stays within one day. */
  lemma TimeOfDayBounds(dt: DateTime)
    requires Valid(dt)
    ensures 0 <= TimeOfDay(dt) < 86_400_000_000
  {
  }

  /** Days before month m, plus that month, fit before any later month. */
  lemma {:induction false} DaysBeforeMonthGrows(y: int, m: int, n: int)
    requires 1 <= m < n <= 13
    ensures DaysBeforeMonth(y, m) + DaysInMonth(y, m) <= DaysBeforeMonth(y, n)
  {
    if n > m + 1 {
      DaysBeforeMonthGrows(y, m, n - 1);
    }
  }

  /** A year's days all come before any later year. */
  lemma {:induction false} DaysBeforeYearGrows(y: int, z: int)
    requires y < z
    decreases z - y
    ensures DaysBeforeYear(y) + DaysInYear(y) <= DaysBeforeYear(z)
  {
    DaysBeforeNextYear(y);
    if z > y + 1 {
      DaysBeforeYearGrows(y + 1, z);
      DaysBeforeNextYear(y + 1);
    }
  }

  /** The day of the year of a valid date is within its year. */
  lemma DayOfYearBounds(dt: DateTime)
    requires Valid(dt)
    ensures 0 <= DaysBeforeMonth(dt.year, dt.month) + dt.day - 1
    ensures DaysBeforeMonth(dt.year, dt.month) + dt.day <= DaysInYear(dt.year)
  {
    DaysBeforeMonthGrows(dt.year, dt.month, 13);
    MonthsMakeYear(dt.year);
  }

  /** The ordinal orders datetimes chronologically. */
  lemma OrdOrdersBefore(a: DateTime, b: DateTime)
    requires Valid(a) && Valid(b) && Before(a, b)
    ensures Ord(a) < Ord(b)
  {
    TimeOfDayBounds(a);
    TimeOfDayBounds(b);
    var da := DaysBeforeMonth(a.year, a.month) + a.day - 1;
    var db := DaysBeforeMonth(b.year, b.month) + b.day - 1;
    DayOfYearBounds(a);
    DayOfYearBounds(b);
    if a.year != b.year {
      DaysBeforeYearGrows(a.year, b.year);
      assert DaysBeforeYear(a.year) + da + 1 <= DaysBeforeYear(b.year) + db;
    } else if a.month != b.month {
      DaysBeforeMonthGrows(a.year, a.month, b.month);
      assert da + 1 <= db;
    } else if a.day != b.day {
      assert da + 1 <= db;
    }
  }

  /** No datetime lies strictly between `dt` and `dt` plus one microsecond. */
  lemma NothingBetween(dt: DateTime, x: DateTime)
    requires Valid(dt) && Valid(x) && AddMicrosecond(dt).Some?
    requires Before(dt, x)
    ensures !Before(x, AddMicrosecond(dt).value)
  {
    var r := AddMicrosecond(dt).value;
    AddMicrosecondIsNext(dt);
    OrdOrdersBefore(dt, x);
    if Before(x, r) {
      OrdOrdersBefore(x, r);
    }
  }
}
