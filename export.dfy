/** The two consumers of the stored table that select rows by the clock: the
    Excel download split into a night sheet and a day sheet, and the day/night
    choice of the plot. Rows of either table (stored results or consolidated
    readings) are seen through `stamp`, which gives a row's `DateTime`. */
module Export {
  import opened Wrappers
  import opened Text
  import opened Timestamps
  import opened Seqs
  import opened Consolidation
  import opened Aggregation

  // ---------------------------------------------------------------------------
  // Clock text: `strftime("%H:%M:%S")` and `f'{t:02}:00:00'`
  // ---------------------------------------------------------------------------

  /** `time().strftime("%H:%M:%S")` of an instant. */
  function ClockText(ts: int): string {
    var tod := TimeOfDay(ts);
    Pad2(tod / SecondsPerHour) + ":" + Pad2(tod % SecondsPerHour / 60) + ":" + Pad2(tod % 60)
  }

  /** `f'{t:02}:00:00'`, the text a sheet's rows are compared with. */
  function AtHourText(t: nat): string {
    Pad2(t) + ":00:00"
  }

  /** An instant's clock text reads `t` o'clock exactly when `t` is an hour of
      the day and the instant falls on that hour sharp. */
  lemma ClockAtHour(ts: int, t: nat)
    ensures ClockText(ts) == AtHourText(t) <==> t < 24 && TimeOfDay(ts) == t * SecondsPerHour
  {
    if ClockText(ts) == AtHourText(t) {
      ClockReadsHour(ts, t);
    }
    if t < 24 && TimeOfDay(ts) == t * SecondsPerHour {
      HourReadsClock(ts, t);
    }
  }

  lemma ClockReadsHour(ts: int, t: nat)
    requires ClockText(ts) == AtHourText(t)
    ensures t < 24 && TimeOfDay(ts) == t * SecondsPerHour
  {
    var tod := TimeOfDay(ts);
    var h, m, s := tod / SecondsPerHour, tod % SecondsPerHour / 60, tod % 60;
    ClockFields(tod);
    AtHourFields(t);
    FieldsAgree(Pad2(h), Pad2(m), Pad2(s), Pad2(t), Pad2(0), Pad2(0));
  }

  /** The target text is the hour and two zero fields. */
  lemma AtHourFields(t: nat)
    ensures AtHourText(t) == Pad2(t) + ":" + Pad2(0) + ":" + Pad2(0)
  {
    assert Pad2(0) == "00";
  }

  /** Two texts of three two-character fields joined by `:` agree field by field. */
  lemma FieldsAgree(a: string, b: string, c: string, a': string, b': string, c': string)
    requires |a| == 2 && |b| == 2 && |c| == 2 && |b'| == 2 && |c'| == 2
    requires a + ":" + b + ":" + c == a' + ":" + b' + ":" + c'
    ensures a == a' && b == b' && c == c'
  {
    var l, r := a + ":" + b + ":" + c, a' + ":" + b' + ":" + c';
    assert |a'| == 2;
    assert l[..2] == a && r[..2] == a';
    assert l[3..5] == b && r[3..5] == b';
    assert l[6..] == c && r[6..] == c';
  }

  lemma HourReadsClock(ts: int, t: nat)
    requires t < 24 && TimeOfDay(ts) == t * SecondsPerHour
    ensures ClockText(ts) == AtHourText(t)
  {
    var tod := TimeOfDay(ts);
    ExampleDigits();
    assert tod / SecondsPerHour == t && tod % SecondsPerHour / 60 == 0 && tod % 60 == 0;
    assert ClockText(ts) == Pad2(t) + ":" + "00" + ":" + "00";
  }

  /** The hour, minute and second fields of a time of day determine it. */
  lemma ClockFields(tod: int)
    requires 0 <= tod < SecondsPerDay
    ensures tod / SecondsPerHour < 24 && tod % 60 == tod % SecondsPerHour % 60
    ensures tod == tod / SecondsPerHour * SecondsPerHour + tod % SecondsPerHour / 60 * 60 + tod % 60
  {
  }

  // ---------------------------------------------------------------------------
  // The multi-sheet download
  // ---------------------------------------------------------------------------

  /** The rows whose clock text is `t` o'clock, in table order. */
  function SheetRows<T>(rows: seq<T>, stamp: T -> int, t: nat): seq<T> {
    Filter(rows, ClockIs(stamp, t))
  }

  function ClockIs<T>(stamp: T -> int, t: nat): T -> bool {
    (x: T) => ClockText(stamp(x)) == AtHourText(t)
  }

  /** `at_time`'s test: the row falls on `t` o'clock sharp. */
  function OnTheHour<T>(stamp: T -> int, t: nat): T -> bool {
    (x: T) => TimeOfDay(stamp(x)) == t * SecondsPerHour
  }

  datatype Sheet<T> = Sheet(name: string, rows: seq<T>)

  /** `f'{period}_{t:02}'`. */
  function SheetName(period: string, t: nat): string {
    period + "_" + Pad2(t)
  }

  /** The workbook of the split download: a `Night` sheet for the first slider
      hour and a `Day` sheet for the second, each with the rows of its hour. */
  method MultiSheetExport<T>(rows: seq<T>, stamp: T -> int, night: nat, day: nat) returns (sheets: seq<Sheet<T>>)
    ensures |sheets| == 2
    ensures sheets[0] == Sheet(SheetName("Night", night), SheetRows(rows, stamp, night))
    ensures sheets[1] == Sheet(SheetName("Day", day), SheetRows(rows, stamp, day))
  {
    var periods := [(night, "Night"), (day, "Day")];
    sheets := [];
    var k := 0;
    while k < |periods|
      invariant 0 <= k <= |periods| && |sheets| == k
      invariant forall i :: 0 <= i < k ==>
        sheets[i] == Sheet(SheetName(periods[i].1, periods[i].0), SheetRows(rows, stamp, periods[i].0))
    {
      var (time, period) := periods[k];
      sheets := sheets + [Sheet(SheetName(period, time), SheetRows(rows, stamp, time))];
      k := k + 1;
    }
  }

  /** A row is on the sheet of hour `t` exactly when it is a row of the table
      that falls on `t` o'clock sharp; for the slider's 24 the sheet is empty. */
  lemma SheetRowsMeaning<T>(rows: seq<T>, stamp: T -> int, t: nat, x: T)
    ensures x in SheetRows(rows, stamp, t) <==> x in rows && t < 24 && TimeOfDay(stamp(x)) == t * SecondsPerHour
  {
    FilterMember(rows, ClockIs(stamp, t), x);
    ClockAtHour(stamp(x), t);
  }

  /** For an hour of the day the text comparison selects what `at_time` selects. */
  lemma SheetIsAtTime<T>(rows: seq<T>, stamp: T -> int, t: nat)
    requires t < 24
    ensures SheetRows(rows, stamp, t) == Filter(rows, OnTheHour(stamp, t))
  {
    forall i | 0 <= i < |rows| ensures ClockIs(stamp, t)(rows[i]) == OnTheHour(stamp, t)(rows[i]) {
      ClockAtHour(stamp(rows[i]), t);
    }
    FilterAgrees(rows, ClockIs(stamp, t), OnTheHour(stamp, t));
  }

  /** The two sheet names never clash, whatever the slider hours. */
  lemma SheetNamesDiffer(night: nat, day: nat)
    ensures SheetName("Night", night) != SheetName("Day", day)
  {
    assert SheetName("Night", night)[0] == 'N';
  }

  function SummaryStamp(s: Summary): int {
    s.ts
  }

  /** Every row of the analysis table lands on the night sheet or the day
      sheet, except the row of the first hour's group when that hour is
      neither slider hour. */
  lemma TableRowsExported(rs: seq<Reading>, night: nat, day: nat, x: Summary)
    requires night < 24 && day < 24
    requires x in SummaryTable(rs, night, day)
    ensures x in SheetRows(SummaryTable(rs, night, day), SummaryStamp, night)
         || x in SheetRows(SummaryTable(rs, night, day), SummaryStamp, day)
         || x.ts == HourIndex(Earliest(rs)) * SecondsPerHour
  {
    var table := SummaryTable(rs, night, day);
    ShowDataframeHours(rs, night, day);
    var i :| 0 <= i < |table| && table[i] == x;
    AlignedTimeOfDay(x.ts);
    SheetRowsMeaning(table, SummaryStamp, night, x);
    SheetRowsMeaning(table, SummaryStamp, day, x);
  }

  /** On an hour sharp, the time of day is the hour of day in seconds. */
  lemma AlignedTimeOfDay(ts: int)
    requires ts % SecondsPerHour == 0
    ensures TimeOfDay(ts) == HourOfDay(ts) * SecondsPerHour
  {
    var k := ts / SecondsPerHour;
    var q, r := k / 24, k % 24;
    assert ts == k * SecondsPerHour;
    assert ts == q * SecondsPerDay + r * SecondsPerHour;
    assert 0 <= r * SecondsPerHour < SecondsPerDay;
  }

  // ---------------------------------------------------------------------------
  // The plot's day/night choice
  // ---------------------------------------------------------------------------

  /** `df.at_time(f'{t}:00:00')`: raises for an hour past 23. */
  function AtTime<T>(rows: seq<T>, stamp: T -> int, t: nat): Result<seq<T>, string> {
    if t < 24 then Success(Filter(rows, OnTheHour(stamp, t)))
    else Failure("hour must be in 0..23")
  }

  /** The rows the plot draws: all of them when both periods are chosen, the
      rows at the day hour (the second slider value) or at the night hour (the
      first) when only one is, and none when neither is. */
  function PlotSelection<T>(rows: seq<T>, stamp: T -> int, night: nat, day: nat, showDay: bool, showNight: bool): Result<seq<T>, string> {
    if showDay && showNight then Success(rows)
    else if showDay then AtTime(rows, stamp, day)
    else if showNight then AtTime(rows, stamp, night)
    else Success([])
  }

  /** Whether a row belongs to the chosen periods: every row for both, the
      rows at the chosen period's hour for one, no row for none. */
  predicate Chosen<T>(stamp: T -> int, night: nat, day: nat, showDay: bool, showNight: bool, x: T) {
    if showDay && showNight then true
    else if showDay then TimeOfDay(stamp(x)) == day * SecondsPerHour
    else if showNight then TimeOfDay(stamp(x)) == night * SecondsPerHour
    else false
  }

  /** The plot fails exactly when one period alone is chosen and its hour is
      the slider's 24; otherwise it draws precisely the chosen rows. */
  lemma PlotSelectionMeaning<T>(rows: seq<T>, stamp: T -> int, night: nat, day: nat, showDay: bool, showNight: bool)
    ensures PlotSelection(rows, stamp, night, day, showDay, showNight).Failure? <==>
      (showDay && !showNight && day >= 24) || (showNight && !showDay && night >= 24)
    ensures PlotSelection(rows, stamp, night, day, showDay, showNight).Success? ==>
      forall x :: x in PlotSelection(rows, stamp, night, day, showDay, showNight).value <==>
        x in rows && Chosen(stamp, night, day, showDay, showNight, x)
  {
    var r := PlotSelection(rows, stamp, night, day, showDay, showNight);
    if r.Success? && showDay != showNight {
      var t := if showDay then day else night;
      forall x ensures x in r.value <==> x in rows && TimeOfDay(stamp(x)) == t * SecondsPerHour {
        FilterMember(rows, OnTheHour(stamp, t), x);
      }
    }
  }

  /** With one period chosen, the plot shows exactly that period's sheet. */
  lemma PlotMatchesSheet<T>(rows: seq<T>, stamp: T -> int, night: nat, day: nat, showDay: bool, showNight: bool)
    requires showDay != showNight
    ensures var t := if showDay then day else night;
      t < 24 ==> PlotSelection(rows, stamp, night, day, showDay, showNight) == Success(SheetRows(rows, stamp, t))
  {
    var t := if showDay then day else night;
    if t < 24 {
      SheetIsAtTime(rows, stamp, t);
    }
  }
}
