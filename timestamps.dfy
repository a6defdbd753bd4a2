/** The `DateTime` index: instants as whole seconds since 1970-01-01 00:00:00
    UTC on the proleptic Gregorian calendar, the text pattern
    `%d.%m.%Y_%H:%M:%S` the meter's date and time columns are parsed with, and
    the calendar quantities the pipeline reads off an instant (hour bin, hour
    of day, calendar day, time of day). */
module Timestamps {
  import opened Wrappers
  import opened Text

  const SecondsPerHour: int := 3600
  const SecondsPerDay: int := 86400

  /** The range of a pandas `Timestamp` (signed 64-bit nanoseconds), in whole seconds. */
  const MinSeconds: int := -9223372036
  const MaxSeconds: int := 9223372036

  datatype DateTime = DateTime(year: int, month: int, day: int, hour: int, minute: int, second: int)

  predicate IsLeapYear(y: int) {
    y % 4 == 0 && (y % 100 != 0 || y % 400 == 0)
  }

  function DaysInMonth(y: int, m: int): int
    requires 1 <= m <= 12
  {
    if m == 2 then (if IsLeapYear(y) then 29 else 28)
    else if m == 4 || m == 6 || m == 9 || m == 11 then 30
    else 31
  }

  /** Days in the months of year `y` before month `m`. */
  function DaysBeforeMonth(y: int, m: int): int
    requires 1 <= m <= 12
  {
    if m == 1 then 0 else DaysBeforeMonth(y, m - 1) + DaysInMonth(y, m - 1)
  }

  /** Leap years among the years 1 .. y-1. */
  function LeapYearsBefore(y: int): int {
    (y - 1) / 4 - (y - 1) / 100 + (y - 1) / 400
  }

  /** Days from 1970-01-01 to the first of January of year `y`. */
  function DaysBeforeYear(y: int): int {
    365 * (y - 1970) + LeapYearsBefore(y) - LeapYearsBefore(1970)
  }

  predicate ValidDate(f: DateTime) {
    1 <= f.month <= 12 && 1 <= f.day <= DaysInMonth(f.year, f.month)
  }

  predicate ValidClock(f: DateTime) {
    0 <= f.hour < 24 && 0 <= f.minute < 60 && 0 <= f.second < 60
  }

  predicate ValidDateTime(f: DateTime) {
    ValidDate(f) && ValidClock(f)
  }

  /** Days from 1970-01-01 to the date of `f`. */
  function EpochDay(f: DateTime): int
    requires ValidDate(f)
  {
    DaysBeforeYear(f.year) + DaysBeforeMonth(f.year, f.month) + f.day - 1
  }

  function EpochSeconds(f: DateTime): int
    requires ValidDate(f)
  {
    EpochDay(f) * SecondsPerDay + f.hour * SecondsPerHour + f.minute * 60 + f.second
  }

  /** The start of the hour bin an instant falls in, counted in hours (pandas floors). */
  function HourIndex(ts: int): int {
    ts / SecondsPerHour
  }

  /** `index.hour`. */
  function HourOfDay(ts: int): int {
    HourIndex(ts) % 24
  }

  /** The calendar day an instant falls in, counted in days since 1970-01-01. */
  function DayIndex(ts: int): int {
    ts / SecondsPerDay
  }

  /** The number of consecutive bins from bin `first` to bin `last`, both included. */
  function Span(first: int, last: int): nat {
    if last < first then 0 else last - first + 1
  }

  /** Seconds since the midnight before the instant. */
  function TimeOfDay(ts: int): int {
    ts % SecondsPerDay
  }

  /** An instant's date and clock fields read back: its day, time of day and hour of day. */
  lemma ClockOfEpochSeconds(f: DateTime)
    requires ValidDateTime(f)
    ensures DayIndex(EpochSeconds(f)) == EpochDay(f)
    ensures TimeOfDay(EpochSeconds(f)) == f.hour * 3600 + f.minute * 60 + f.second
    ensures HourOfDay(EpochSeconds(f)) == f.hour
  {
    var tod := f.hour * 3600 + f.minute * 60 + f.second;
    var ts := EpochSeconds(f);
    assert 0 <= tod < SecondsPerDay;
    assert ts == EpochDay(f) * SecondsPerDay + tod;
    assert ts / SecondsPerHour == EpochDay(f) * 24 + f.hour;
  }

  // ---- Parsing `%d.%m.%Y_%H:%M:%S` ----

  datatype Scan = Scan(value: nat, rest: string)

  /** A numeric field of `minLen` to `maxLen` digits; like strptime's patterns, it
      runs up to the next non-digit, which here is always the next separator. */
  function Field(s: string, minLen: nat, maxLen: nat): Option<Scan> {
    var k := DigitRun(s);
    if minLen <= k <= maxLen then Some(Scan(DigitsValue(s[..k]), s[k..])) else None
  }

  /** A numeric field and the separator character `sep` after it; `rest` is the text after the separator. */
  function FieldThen(s: string, minLen: nat, maxLen: nat, sep: char): Option<Scan> {
    var f :- Field(s, minLen, maxLen);
    if |f.rest| > 0 && f.rest[0] == sep then Some(Scan(f.value, f.rest[1..])) else None
  }

  /** The `%d` field and its `.`: one or two digits, or strptime's space-padded
      form, a space and a single digit. */
  function DayField(s: string): Option<Scan> {
    if |s| > 0 && s[0] == ' ' then FieldThen(s[1..], 1, 1, '.') else FieldThen(s, 1, 2, '.')
  }

  /** The fields of `%d.%m.%Y_%H:%M:%S` matched against the whole text, with the
      value ranges the pattern admits: day 1-31, month 1-12, a four-digit year,
      hour 0-23, minute 0-59 and second 0-61. */
  function MatchPattern(s: string): (r: Option<DateTime>)
    ensures r.Some? ==> 1 <= r.value.day <= 31 && 1 <= r.value.month <= 12 && r.value.year >= 0
    ensures r.Some? ==> r.value.hour <= 23 && r.value.minute <= 59 && r.value.second <= 61
  {
    var d :- DayField(s);
    MatchAfterDay(d.value, d.rest)
  }

  /** The fields after the day's `.`, `%m.%Y_%H:%M:%S`, with the day already read. */
  function MatchAfterDay(day: nat, s: string): (r: Option<DateTime>)
    ensures r.Some? ==> r.value.day == day && 1 <= day <= 31 && 1 <= r.value.month <= 12 && r.value.year >= 0
    ensures r.Some? ==> r.value.hour <= 23 && r.value.minute <= 59 && r.value.second <= 61
  {
    var m :- FieldThen(s, 1, 2, '.');
    var y :- FieldThen(m.rest, 4, 4, '_');
    var h :- FieldThen(y.rest, 1, 2, ':');
    var mi :- FieldThen(h.rest, 1, 2, ':');
    var sec :- Field(mi.rest, 1, 2);
    if |sec.rest| == 0 && 1 <= day <= 31 && 1 <= m.value <= 12
       && h.value <= 23 && mi.value <= 59 && sec.value <= 61
    then Some(DateTime(y.value, m.value, day, h.value, mi.value, sec.value))
    else None
  }

  /** `pd.to_datetime(date + '_' + time, format='%d.%m.%Y_%H:%M:%S')`: `None`
      for text off the pattern, a day past the end of its month or an instant
      outside the `Timestamp` range; seconds 60 and 61, which the pattern
      admits, are refused as Python's `datetime` refuses them. */
  function ParseTimestamp(date: string, time: string): (r: Option<int>)
    ensures r.Some? ==> MinSeconds <= r.value <= MaxSeconds
  {
    var f :- MatchPattern(date + "_" + time);
    if f.day <= DaysInMonth(f.year, f.month) && f.second <= 59 then
      var ts := EpochSeconds(f);
      if MinSeconds <= ts <= MaxSeconds then Some(ts) else None
    else None
  }

  /** `pd.to_datetime('1970-01-30')`: readings before it are device power-on artefacts. */
  function SyncCutoff(): int {
    EpochSeconds(DateTime(1970, 1, 30, 0, 0, 0))
  }

  // ---- The text the meter writes, read back ----

  /** `%d.%m.%Y` as the meter writes it. */
  function FormatDate(f: DateTime): string
    requires f.day >= 0 && f.month >= 0 && f.year >= 0
  {
    Pad2(f.day) + "." + Pad2(f.month) + "." + Decimal(f.year)
  }

  /** `%H:%M:%S` as the meter writes it. */
  function FormatTime(f: DateTime): string
    requires f.hour >= 0 && f.minute >= 0 && f.second >= 0
  {
    Pad2(f.hour) + ":" + Pad2(f.minute) + ":" + Pad2(f.second)
  }

  /** A field followed by a separator is read as its digits' value. */
  lemma FieldThenSeparator(digits: string, sep: char, rest: string, minLen: nat, maxLen: nat)
    requires AllDigits(digits) && minLen <= |digits| <= maxLen && !IsDigit(sep)
    ensures FieldThen(digits + [sep] + rest, minLen, maxLen, sep) == Some(Scan(DigitsValue(digits), rest))
  {
    assert digits + [sep] + rest == digits + ([sep] + rest);
    DigitRunStopsAt(digits, [sep] + rest);
    assert (digits + ([sep] + rest))[..|digits|] == digits;
    assert (digits + ([sep] + rest))[|digits|..] == [sep] + rest;
    assert ([sep] + rest)[1..] == rest;
  }

  /** The last field, at the end of the text. */
  lemma FieldAtEnd(digits: string, minLen: nat, maxLen: nat)
    requires AllDigits(digits) && minLen <= |digits| <= maxLen
    ensures Field(digits, minLen, maxLen) == Some(Scan(DigitsValue(digits), []))
  {
    DigitRunWhole(digits);
    assert digits[..|digits|] == digits;
    assert digits[|digits|..] == [];
  }

  /** Days between 1678 and 2261 stay inside the `Timestamp` range. */
  lemma EpochSecondsInRange(f: DateTime)
    requires ValidDateTime(f) && 1678 <= f.year <= 2261
    ensures MinSeconds <= EpochSeconds(f) <= MaxSeconds
  {
    MonthDaysBounded(f.year, f.month);
  }

  lemma {:induction false} MonthDaysBounded(y: int, m: int)
    requires 1 <= m <= 12
    ensures 0 <= DaysBeforeMonth(y, m) <= 31 * (m - 1)
  {
    if m > 1 {
      MonthDaysBounded(y, m - 1);
    }
  }

  /** The meter's date and time text, joined by `_`, matches the pattern field for field. */
  lemma MatchFormatted(f: DateTime)
    requires ValidDateTime(f) && 1678 <= f.year <= 2261
    ensures MatchPattern(FormatDate(f) + "_" + FormatTime(f)) == Some(f)
  {
    var r1 := Pad2(f.month) + ['.'] + (Decimal(f.year) + ['_'] + (Pad2(f.hour) + [':'] + (Pad2(f.minute) + [':'] + Pad2(f.second))));
    FormattedText(f);
    DayFieldDigits(Pad2(f.day), r1);
    MatchAfterFormatted(f);
  }

  /** The meter's text after the day matches the remaining fields. */
  lemma MatchAfterFormatted(f: DateTime)
    requires ValidDateTime(f) && 1678 <= f.year <= 2261
    ensures MatchAfterDay(f.day, Pad2(f.month) + ['.'] + (Decimal(f.year) + ['_'] + (Pad2(f.hour) + [':'] + (Pad2(f.minute) + [':'] + Pad2(f.second))))) == Some(f)
  {
    var mm, yy := Pad2(f.month), Decimal(f.year);
    var hh, mi, ss := Pad2(f.hour), Pad2(f.minute), Pad2(f.second);
    var r4 := mi + [':'] + ss;
    var r3 := hh + [':'] + r4;
    var r2 := yy + ['_'] + r3;
    var r1 := mm + ['.'] + r2;
    FieldThenSeparator(mm, '.', r2, 1, 2);
    FieldThenSeparator(yy, '_', r3, 4, 4);
    FieldThenSeparator(hh, ':', r4, 1, 2);
    FieldThenSeparator(mi, ':', ss, 1, 2);
    FieldAtEnd(ss, 1, 2);
    assert FieldThen(r1, 1, 2, '.') == Some(Scan(f.month, r2));
    assert FieldThen(r2, 4, 4, '_') == Some(Scan(f.year, r3));
    assert FieldThen(r3, 1, 2, ':') == Some(Scan(f.hour, r4));
    assert FieldThen(r4, 1, 2, ':') == Some(Scan(f.minute, ss));
    assert Field(ss, 1, 2) == Some(Scan(f.second, []));
  }

  /** A day written in digits is read as the plain field. */
  lemma DayFieldDigits(digits: string, rest: string)
    requires AllDigits(digits) && 1 <= |digits| <= 2
    ensures DayField(digits + ['.'] + rest) == Some(Scan(DigitsValue(digits), rest))
  {
    assert (digits + ['.'] + rest)[0] == digits[0];
    assert IsDigit(digits[0]);
    FieldThenSeparator(digits, '.', rest, 1, 2);
  }

  lemma FormattedText(f: DateTime)
    requires ValidDateTime(f) && 1678 <= f.year <= 2261
    ensures FormatDate(f) + "_" + FormatTime(f)
         == Pad2(f.day) + ['.'] + (Pad2(f.month) + ['.'] + (Decimal(f.year) + ['_'] + (Pad2(f.hour) + [':'] + (Pad2(f.minute) + [':'] + Pad2(f.second)))))
  {
  }

  /** Round trip: the date and time text the meter writes for an instant parses back to that instant. */
  lemma ParseFormatted(f: DateTime)
    requires ValidDateTime(f) && 1678 <= f.year <= 2261
    ensures ParseTimestamp(FormatDate(f), FormatTime(f)) == Some(EpochSeconds(f))
  {
    MatchFormatted(f);
    EpochSecondsInRange(f);
  }

  /** The example row of the meter's export: `01.01.2024` and `08:00:00` is 2024-01-01 08:00:00 UTC. */
  lemma ParseExample()
    ensures ParseTimestamp("01.01.2024", "08:00:00") == Some(1704096000)
  {
    var f := DateTime(2024, 1, 1, 8, 0, 0);
    ExampleText();
    assert EpochDay(f) == 19723;
    ParseFormatted(f);
  }

  /** strptime's space-padded day: a day written as a space and a digit reads
      as the same day written with a leading zero. */
  lemma SpacedDayParses(d: char, rest: string, time: string)
    requires '1' <= d <= '9'
    ensures ParseTimestamp([' ', d, '.'] + rest, time) == ParseTimestamp(['0', d, '.'] + rest, time)
  {
    var tail := rest + "_" + time;
    var spaced, padded := [' ', d, '.'] + rest + "_" + time, ['0', d, '.'] + rest + "_" + time;
    assert spaced[1..] == [d] + ['.'] + tail;
    assert padded == ['0', d] + ['.'] + tail;
    FieldThenSeparator([d], '.', tail, 1, 1);
    FieldThenSeparator(['0', d], '.', tail, 1, 2);
    assert ['0', d][..1] == ['0'];
    SameDayField(spaced, padded);
  }

  /** The match depends on the day's text only through the day field it reads. */
  lemma SameDayField(a: string, b: string)
    requires DayField(a) == DayField(b)
    ensures MatchPattern(a) == MatchPattern(b)
  {
  }

  /** ` 1.01.2024` with `08:00:00` is the instant of `01.01.2024` with `08:00:00`. */
  lemma ParseSpacedDay()
    ensures ParseTimestamp(" 1.01.2024", "08:00:00") == Some(1704096000)
  {
    ParseExample();
    SpacedDayParses('1', "01.2024", "08:00:00");
    ExampleDates();
  }

  lemma ExampleDates()
    ensures " 1.01.2024" == [' ', '1', '.'] + "01.2024"
    ensures "01.01.2024" == ['0', '1', '.'] + "01.2024"
  {
  }

  lemma ExampleText()
    ensures FormatDate(DateTime(2024, 1, 1, 8, 0, 0)) == "01.01.2024"
    ensures FormatTime(DateTime(2024, 1, 1, 8, 0, 0)) == "08:00:00"
  {
    ExampleDigits();
  }

  lemma ExampleDigits()
    ensures Pad2(0) == "00" && Pad2(1) == "01" && Pad2(8) == "08"
    ensures Decimal(2024) == "2024"
  {
    assert Pad2(1) == "01";
    assert Pad2(8) == "08";
    assert Decimal(2) == "2";
    assert Decimal(20) == "20";
    assert Decimal(202) == "202";
  }
}
