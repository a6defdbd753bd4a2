/** The four value boxes of the dashboard: the total of each counter over the
    consolidated readings, and the largest day-to-day increase of each. */
module Metrics {
  import opened Wrappers
  import opened Timestamps
  import opened Missing
  import opened Consolidation
  import opened Aggregation

  // ---------------------------------------------------------------------------
  // Totals: `max() - min()`
  // ---------------------------------------------------------------------------

  /** The total of a counter: its greatest reading less its least reading. */
  function Total(rs: seq<Reading>, c: Counter): Option<real> {
    Sub(MaxOf(Column(rs, c)), MinOf(Column(rs, c)))
  }

  /** The total is missing exactly when the counter has no reading; otherwise
      it is the largest difference between two readings of the counter, so it
      is never negative. */
  lemma TotalSpread(rs: seq<Reading>, c: Counter)
    ensures Total(rs, c).None? <==> forall i :: 0 <= i < |rs| ==> ValueOf(rs[i], c).None?
    ensures Total(rs, c).Some? ==> Total(rs, c).value >= 0.0
    ensures Total(rs, c).Some? ==>
      forall i, j :: 0 <= i < |rs| && 0 <= j < |rs| && ValueOf(rs[i], c).Some? && ValueOf(rs[j], c).Some? ==>
        ValueOf(rs[i], c).value - ValueOf(rs[j], c).value <= Total(rs, c).value
    ensures Total(rs, c).Some? ==>
      exists i, j :: 0 <= i < |rs| && 0 <= j < |rs| && ValueOf(rs[i], c).Some? && ValueOf(rs[j], c).Some? &&
        Total(rs, c).value == ValueOf(rs[i], c).value - ValueOf(rs[j], c).value
  {
    var col := Column(rs, c);
    assert forall i :: 0 <= i < |rs| ==> col[i] == ValueOf(rs[i], c);
    var hi := MaxOf(col);
    var lo := MinOf(col);
    if hi.Some? {
      var i :| 0 <= i < |col| && col[i] == hi;
      var j :| 0 <= j < |col| && col[j] == lo;
      assert Total(rs, c).value == ValueOf(rs[i], c).value - ValueOf(rs[j], c).value;
    }
  }

  // ---------------------------------------------------------------------------
  // Peak daily increase: `resample('D').last().diff().max()`
  // ---------------------------------------------------------------------------

  /** A counter column with the readings of other days masked as missing. */
  function DayColumn(rs: seq<Reading>, day: int, c: Counter): seq<Option<real>> {
    seq(|rs|, i requires 0 <= i < |rs| => if DayIndex(rs[i].ts) == day then ValueOf(rs[i], c) else None)
  }

  /** `last()` of one day's bin: the last present reading of the day. */
  function DayLast(rs: seq<Reading>, day: int, c: Counter): Option<real> {
    LastOf(DayColumn(rs, day, c))
  }

  /** The last reading of each calendar day from the earliest reading's day to
      the latest one's, missing on a day without a reading of the counter. */
  function DailyLast(rs: seq<Reading>, c: Counter): seq<Option<real>> {
    if |rs| == 0 then []
    else
      var first := DayIndex(Earliest(rs));
      seq(Span(first, DayIndex(Latest(rs))), d requires 0 <= d < Span(first, DayIndex(Latest(rs))) => DayLast(rs, first + d, c))
  }

  /** `diff()`: the change from the previous entry, missing for the first. */
  function Diff(xs: seq<Option<real>>): seq<Option<real>> {
    seq(|xs|, k requires 0 <= k < |xs| => if k == 0 then None else Sub(xs[k], xs[k - 1]))
  }

  /** The peak daily increase of a counter. */
  function PeakDaily(rs: seq<Reading>, c: Counter): Option<real> {
    MaxOf(Diff(DailyLast(rs, c)))
  }

  /** `v` is the value of the last reading taken on `day` that has counter
      `c`, and missing exactly when no reading of that day has it. */
  predicate IsDayLast(rs: seq<Reading>, day: int, c: Counter, v: Option<real>) {
    && (v.None? <==> forall i :: 0 <= i < |rs| && DayIndex(rs[i].ts) == day ==> ValueOf(rs[i], c).None?)
    && (v.Some? ==> exists i :: 0 <= i < |rs| && LastOfDayAt(rs, day, c, i) && ValueOf(rs[i], c) == v)
  }

  /** Reading `i` is taken on `day`, has counter `c`, and no later reading of
      that day has it. */
  predicate LastOfDayAt(rs: seq<Reading>, day: int, c: Counter, i: int) {
    && 0 <= i < |rs| && DayIndex(rs[i].ts) == day && ValueOf(rs[i], c).Some?
    && forall j :: i < j < |rs| && DayIndex(rs[j].ts) == day ==> ValueOf(rs[j], c).None?
  }

  /** A day's bin holds the last reading of that day that has the counter. */
  lemma DayLastMeaning(rs: seq<Reading>, day: int, c: Counter)
    ensures IsDayLast(rs, day, c, DayLast(rs, day, c))
  {
    var col := DayColumn(rs, day, c);
    var k := LastPresent(col);
    assert forall i :: 0 <= i < |rs| ==> col[i] == if DayIndex(rs[i].ts) == day then ValueOf(rs[i], c) else None;
    if k >= 0 {
      assert LastOfDayAt(rs, day, c, k);
    }
  }

  /** `p` is missing exactly when no two consecutive entries are both present,
      and otherwise is the greatest change between two consecutive present
      entries. */
  predicate IsPeakIncrease(xs: seq<Option<real>>, p: Option<real>) {
    PeakMissing(xs, p) && PeakAttained(xs, p) && PeakBounds(xs, p)
  }

  predicate PeakMissing(xs: seq<Option<real>>, p: Option<real>) {
    p.None? <==> forall d :: 0 < d < |xs| ==> xs[d].None? || xs[d - 1].None?
  }

  predicate PeakAttained(xs: seq<Option<real>>, p: Option<real>) {
    p.Some? ==> exists d :: 0 < d < |xs| && xs[d].Some? && xs[d - 1].Some? && p.value == xs[d].value - xs[d - 1].value
  }

  predicate PeakBounds(xs: seq<Option<real>>, p: Option<real>) {
    p.Some? ==> forall d :: 0 < d < |xs| && xs[d].Some? && xs[d - 1].Some? ==> xs[d].value - xs[d - 1].value <= p.value
  }

  /** The largest entry of `diff()` is the peak increase. */
  lemma MaxOfDiff(xs: seq<Option<real>>)
    ensures IsPeakIncrease(xs, MaxOf(Diff(xs)))
  {
    MaxOfDiffMissing(xs);
    MaxOfDiffAttained(xs);
    MaxOfDiffBounds(xs);
  }

  lemma MaxOfDiffMissing(xs: seq<Option<real>>)
    ensures PeakMissing(xs, MaxOf(Diff(xs)))
  {
    if MaxOf(Diff(xs)).None? {
      NoPeakNoPair(xs);
    } else {
      var d := PeakStep(xs);
    }
  }

  /** Without a present change, no two consecutive entries are present. */
  lemma NoPeakNoPair(xs: seq<Option<real>>)
    requires MaxOf(Diff(xs)).None?
    ensures forall d :: 0 < d < |xs| ==> xs[d].None? || xs[d - 1].None?
  {
    var diffs := Diff(xs);
    forall e | 0 < e < |xs| ensures xs[e].None? || xs[e - 1].None? {
      assert diffs[e].None?;
    }
  }

  lemma MaxOfDiffAttained(xs: seq<Option<real>>)
    ensures PeakAttained(xs, MaxOf(Diff(xs)))
  {
    var diffs := Diff(xs);
    var p := MaxOf(diffs);
    if p.Some? {
      var d :| 0 <= d < |diffs| && diffs[d] == p;
      assert 0 < d && xs[d].Some? && xs[d - 1].Some? && p.value == xs[d].value - xs[d - 1].value;
    }
  }

  lemma MaxOfDiffBounds(xs: seq<Option<real>>)
    ensures PeakBounds(xs, MaxOf(Diff(xs)))
  {
    var diffs := Diff(xs);
    var p := MaxOf(diffs);
    if p.Some? {
      forall e | 0 < e < |xs| && xs[e].Some? && xs[e - 1].Some? ensures xs[e].value - xs[e - 1].value <= p.value {
        assert diffs[e] == Sub(xs[e], xs[e - 1]);
      }
    }
  }

  /** The peak daily increase is the greatest change between the last readings
      of two consecutive days, missing when no two consecutive days both have
      a reading. */
  lemma PeakDailyMeaning(rs: seq<Reading>, c: Counter)
    ensures IsPeakIncrease(DailyLast(rs, c), PeakDaily(rs, c))
  {
    MaxOfDiff(DailyLast(rs, c));
  }

  /** A peak daily increase never exceeds the total of the same counter. */
  lemma PeakWithinTotal(rs: seq<Reading>, c: Counter)
    requires PeakDaily(rs, c).Some?
    ensures Total(rs, c).Some? && PeakDaily(rs, c).value <= Total(rs, c).value
  {
    var i, j := PeakReadings(rs, c);
    DifferenceWithinTotal(rs, c, i, j);
  }

  /** A peak daily increase is the difference between two readings. */
  lemma PeakReadings(rs: seq<Reading>, c: Counter) returns (i: int, j: int)
    requires PeakDaily(rs, c).Some?
    ensures 0 <= i < |rs| && 0 <= j < |rs| && ValueOf(rs[i], c).Some? && ValueOf(rs[j], c).Some?
    ensures PeakDaily(rs, c).value == ValueOf(rs[i], c).value - ValueOf(rs[j], c).value
  {
    DailyLastWitnessed(rs, c);
    i, j := PeakPair(rs, c, DailyLast(rs, c));
  }

  /** Every present entry of `xs` is the value of some reading of `c`. */
  predicate Witnessed(rs: seq<Reading>, c: Counter, xs: seq<Option<real>>) {
    forall k :: 0 <= k < |xs| && xs[k].Some? ==> exists i :: 0 <= i < |rs| && ValueOf(rs[i], c) == xs[k]
  }

  /** Each present daily entry is the value of a reading. */
  lemma DailyLastWitnessed(rs: seq<Reading>, c: Counter)
    ensures Witnessed(rs, c, DailyLast(rs, c))
  {
    forall k | 0 <= k < |DailyLast(rs, c)| && DailyLast(rs, c)[k].Some?
      ensures exists i :: 0 <= i < |rs| && ValueOf(rs[i], c) == DailyLast(rs, c)[k]
    {
      var i := DayReading(rs, c, k);
    }
  }

  /** A present peak of witnessed entries is a difference of two readings. */
  lemma PeakPair(rs: seq<Reading>, c: Counter, xs: seq<Option<real>>) returns (i: int, j: int)
    requires Witnessed(rs, c, xs) && MaxOf(Diff(xs)).Some?
    ensures 0 <= i < |rs| && 0 <= j < |rs| && ValueOf(rs[i], c).Some? && ValueOf(rs[j], c).Some?
    ensures MaxOf(Diff(xs)).value == ValueOf(rs[i], c).value - ValueOf(rs[j], c).value
  {
    var d := PeakStep(xs);
    i :| 0 <= i < |rs| && ValueOf(rs[i], c) == xs[d];
    j :| 0 <= j < |rs| && ValueOf(rs[j], c) == xs[d - 1];
  }

  /** A present peak of `diff()` is the change at some step. */
  lemma PeakStep(xs: seq<Option<real>>) returns (d: int)
    requires MaxOf(Diff(xs)).Some?
    ensures 0 < d < |xs| && xs[d].Some? && xs[d - 1].Some?
    ensures MaxOf(Diff(xs)).value == xs[d].value - xs[d - 1].value
  {
    var diffs := Diff(xs);
    var m := MaxOf(diffs);
    assert m in diffs;
    d :| 0 <= d < |diffs| && diffs[d] == m;
    DiffAt(xs, d);
  }

  lemma DiffAt(xs: seq<Option<real>>, d: int)
    requires 0 <= d < |xs| && Diff(xs)[d].Some?
    ensures 0 < d && xs[d].Some? && xs[d - 1].Some? && Diff(xs)[d].value == xs[d].value - xs[d - 1].value
  {
  }

  /** A present daily entry is the value of some reading. */
  lemma DayReading(rs: seq<Reading>, c: Counter, d: int) returns (i: int)
    requires 0 <= d < |DailyLast(rs, c)| && DailyLast(rs, c)[d].Some?
    ensures 0 <= i < |rs| && ValueOf(rs[i], c) == DailyLast(rs, c)[d]
  {
    var day := DayIndex(Earliest(rs)) + d;
    assert DailyLast(rs, c)[d] == DayLast(rs, day, c);
    DayLastMeaning(rs, day, c);
    i :| 0 <= i < |rs| && LastOfDayAt(rs, day, c, i) && ValueOf(rs[i], c) == DayLast(rs, day, c);
  }

  /** The difference between any two present readings is within the total. */
  lemma DifferenceWithinTotal(rs: seq<Reading>, c: Counter, i: int, j: int)
    requires 0 <= i < |rs| && 0 <= j < |rs| && ValueOf(rs[i], c).Some? && ValueOf(rs[j], c).Some?
    ensures Total(rs, c).Some? && ValueOf(rs[i], c).value - ValueOf(rs[j], c).value <= Total(rs, c).value
  {
    var col := Column(rs, c);
    assert col[i] == ValueOf(rs[i], c) && col[j] == ValueOf(rs[j], c);
  }
}
