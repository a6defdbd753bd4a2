/** The results table: the consolidated readings resampled to hourly minima,
    the hourly bins split into groups that open at the two slider hours, one
    row of minima per group, the change of each counter from the previous
    group, the net balance, and the cut to the chosen date range. */
module Aggregation {
  import opened Wrappers
  import opened Timestamps
  import opened Missing
  import opened Seqs
  import opened Consolidation

  // ---------------------------------------------------------------------------
  // Hourly resampling: `resample('1h').min()`
  // ---------------------------------------------------------------------------

  /** One counter read down a list of readings. */
  function Column(rs: seq<Reading>, c: Counter): seq<Option<real>> {
    seq(|rs|, i requires 0 <= i < |rs| => ValueOf(rs[i], c))
  }

  /** The earliest instant among the readings. */
  function Earliest(rs: seq<Reading>): int
    requires |rs| > 0
    decreases |rs|
  {
    if |rs| == 1 then rs[0].ts
    else
      var t := Earliest(rs[..|rs| - 1]);
      var u := rs[|rs| - 1].ts;
      if t <= u then t else u
  }

  /** The latest instant among the readings. */
  function Latest(rs: seq<Reading>): int
    requires |rs| > 0
    decreases |rs|
  {
    if |rs| == 1 then rs[0].ts
    else
      var t := Latest(rs[..|rs| - 1]);
      var u := rs[|rs| - 1].ts;
      if t >= u then t else u
  }

  /** The earliest instant is one of the readings' and none is earlier. */
  lemma {:induction false} EarliestBounds(rs: seq<Reading>)
    requires |rs| > 0
    ensures forall i :: 0 <= i < |rs| ==> Earliest(rs) <= rs[i].ts
    ensures exists i :: 0 <= i < |rs| && rs[i].ts == Earliest(rs)
    decreases |rs|
  {
    if |rs| > 1 {
      var prefix := rs[..|rs| - 1];
      EarliestBounds(prefix);
      assert forall i :: 0 <= i < |prefix| ==> prefix[i] == rs[i];
      var i :| 0 <= i < |prefix| && prefix[i].ts == Earliest(prefix);
      if Earliest(rs) != rs[|rs| - 1].ts {
        assert rs[i].ts == Earliest(rs);
      }
    } else {
      assert rs[0].ts == Earliest(rs);
    }
  }

  /** The latest instant is one of the readings' and none is later. */
  lemma {:induction false} LatestBounds(rs: seq<Reading>)
    requires |rs| > 0
    ensures forall i :: 0 <= i < |rs| ==> rs[i].ts <= Latest(rs)
    ensures exists i :: 0 <= i < |rs| && rs[i].ts == Latest(rs)
    decreases |rs|
  {
    if |rs| > 1 {
      var prefix := rs[..|rs| - 1];
      LatestBounds(prefix);
      assert forall i :: 0 <= i < |prefix| ==> prefix[i] == rs[i];
      var i :| 0 <= i < |prefix| && prefix[i].ts == Latest(prefix);
      if Latest(rs) != rs[|rs| - 1].ts {
        assert rs[i].ts == Latest(rs);
      }
    } else {
      assert rs[0].ts == Latest(rs);
    }
  }

  /** A counter column with the readings taken outside hour `h` (counted
      from the epoch) masked as missing. */
  function HourColumn(rs: seq<Reading>, h: int, c: Counter): seq<Option<real>> {
    seq(|rs|, i requires 0 <= i < |rs| => if HourIndex(rs[i].ts) == h then ValueOf(rs[i], c) else None)
  }

  /** The bin of hour `h`: labelled by the start of the hour, holding the
      least reading of each counter in that hour (missing when none). */
  function HourBin(rs: seq<Reading>, h: int): Reading {
    Reading(h * SecondsPerHour, MinOf(HourColumn(rs, h, Consumption)), MinOf(HourColumn(rs, h, Feed)))
  }

  lemma HourIndexMonotone(a: int, b: int)
    requires a <= b
    ensures HourIndex(a) <= HourIndex(b)
  {
  }

  /** The hour bins from the hour of the earliest reading to the hour of the
      latest one, hours without readings included. */
  function HourlyMin(rs: seq<Reading>): seq<Reading> {
    Bins(rs, FirstHour(rs), HourCount(rs))
  }

  /** The hour of the earliest reading. */
  function FirstHour(rs: seq<Reading>): int {
    if |rs| == 0 then 0 else HourIndex(Earliest(rs))
  }

  /** The number of hours from the earliest reading's to the latest one's. */
  function HourCount(rs: seq<Reading>): nat {
    if |rs| == 0 then 0 else Span(HourIndex(Earliest(rs)), HourIndex(Latest(rs)))
  }

  /** The bins of `count` consecutive hours from hour `first` on. */
  function Bins(rs: seq<Reading>, first: int, count: nat): seq<Reading> {
    seq(count, k => HourBin(rs, first + k))
  }

  lemma HourSpan(rs: seq<Reading>)
    requires |rs| > 0
    ensures HourIndex(Earliest(rs)) <= HourIndex(Latest(rs))
    ensures Span(HourIndex(Earliest(rs)), HourIndex(Latest(rs))) == HourIndex(Latest(rs)) - HourIndex(Earliest(rs)) + 1
  {
    EarliestBounds(rs);
    LatestBounds(rs);
    HourIndexMonotone(Earliest(rs), Latest(rs));
  }

  lemma HourBinTime(rs: seq<Reading>, h: int)
    ensures HourBin(rs, h).ts == h * SecondsPerHour && HourIndex(HourBin(rs, h).ts) == h
  {
    HourStart(h);
  }

  lemma HourStart(h: int)
    ensures HourIndex(h * SecondsPerHour) == h && (h * SecondsPerHour) % SecondsPerHour == 0
  {
  }

  /** The bins are whole hours, one after the other in time order, each the
      bin of its own hour; the first is the hour of the earliest reading. */
  lemma HourlyBinsAligned(rs: seq<Reading>)
    ensures forall k :: 0 <= k < |HourlyMin(rs)| ==>
      HourlyMin(rs)[k] == HourBin(rs, HourIndex(HourlyMin(rs)[k].ts)) && HourlyMin(rs)[k].ts % SecondsPerHour == 0
    ensures forall k :: 0 < k < |HourlyMin(rs)| ==> HourlyMin(rs)[k].ts == HourlyMin(rs)[k - 1].ts + SecondsPerHour
    ensures forall i, j :: 0 <= i < j < |HourlyMin(rs)| ==> HourlyMin(rs)[i].ts < HourlyMin(rs)[j].ts
    ensures |rs| > 0 ==> HourlyMin(rs)[0].ts == HourIndex(Earliest(rs)) * SecondsPerHour
  {
    HourlyBinsEach(rs);
    HourlyBinsConsecutive(rs);
    HourlyBinsIncreasing(rs);
    if |rs| > 0 {
      HourlyBinAt(rs, 0);
      assert FirstHour(rs) == HourIndex(Earliest(rs));
    }
  }

  lemma HourlyBinsEach(rs: seq<Reading>)
    ensures forall k :: 0 <= k < |HourlyMin(rs)| ==>
      HourlyMin(rs)[k] == HourBin(rs, HourIndex(HourlyMin(rs)[k].ts)) && HourlyMin(rs)[k].ts % SecondsPerHour == 0
  {
    forall k | 0 <= k < |HourlyMin(rs)|
      ensures HourlyMin(rs)[k] == HourBin(rs, HourIndex(HourlyMin(rs)[k].ts)) && HourlyMin(rs)[k].ts % SecondsPerHour == 0
    {
      HourlyBinAt(rs, k);
    }
  }

  lemma HourlyBinsConsecutive(rs: seq<Reading>)
    ensures forall k :: 0 < k < |HourlyMin(rs)| ==> HourlyMin(rs)[k].ts == HourlyMin(rs)[k - 1].ts + SecondsPerHour
  {
    forall k | 0 < k < |HourlyMin(rs)| ensures HourlyMin(rs)[k].ts == HourlyMin(rs)[k - 1].ts + SecondsPerHour {
      HourlyBinAt(rs, k);
      HourlyBinAt(rs, k - 1);
    }
  }

  lemma HourlyBinsIncreasing(rs: seq<Reading>)
    ensures forall i, j :: 0 <= i < j < |HourlyMin(rs)| ==> HourlyMin(rs)[i].ts < HourlyMin(rs)[j].ts
  {
    forall i, j | 0 <= i < j < |HourlyMin(rs)| ensures HourlyMin(rs)[i].ts < HourlyMin(rs)[j].ts {
      HourlyBinAt(rs, i);
      HourlyBinAt(rs, j);
    }
  }

  /** Bin `k` is the bin of the `k`-th hour after the earliest reading's. */
  lemma HourlyBinAt(rs: seq<Reading>, k: int)
    requires 0 <= k < |HourlyMin(rs)|
    ensures HourlyMin(rs)[k] == HourBin(rs, FirstHour(rs) + k)
    ensures HourlyMin(rs)[k].ts == (FirstHour(rs) + k) * SecondsPerHour
    ensures HourIndex(HourlyMin(rs)[k].ts) == FirstHour(rs) + k
    ensures HourlyMin(rs)[k].ts % SecondsPerHour == 0
  {
    BinAt(rs, FirstHour(rs), HourCount(rs), k);
    HourBinTime(rs, FirstHour(rs) + k);
    HourStart(FirstHour(rs) + k);
  }

  lemma BinAt(rs: seq<Reading>, first: int, count: nat, k: int)
    requires 0 <= k < count
    ensures Bins(rs, first, count)[k] == HourBin(rs, first + k)
  {
  }

  /** Every reading falls in one of the bins; the first bin is the hour of the
      earliest reading and the last bin the hour of the latest one. */
  lemma HourlyBinsCover(rs: seq<Reading>)
    ensures forall i :: 0 <= i < |rs| ==>
      exists k :: 0 <= k < |HourlyMin(rs)| && HourIndex(HourlyMin(rs)[k].ts) == HourIndex(rs[i].ts)
    ensures |rs| > 0 ==> HourIndex(HourlyMin(rs)[0].ts) == HourIndex(Earliest(rs))
    ensures |rs| > 0 ==> HourIndex(HourlyMin(rs)[|HourlyMin(rs)| - 1].ts) == HourIndex(Latest(rs))
  {
    if |rs| > 0 {
      var first := HourIndex(Earliest(rs));
      HourSpan(rs);
      assert FirstHour(rs) == first;
      assert |HourlyMin(rs)| == HourIndex(Latest(rs)) - first + 1;
      forall i | 0 <= i < |rs|
        ensures exists k :: 0 <= k < |HourlyMin(rs)| && HourIndex(HourlyMin(rs)[k].ts) == HourIndex(rs[i].ts)
      {
        HourWithinSpan(rs, i);
        var k := HourIndex(rs[i].ts) - first;
        HourlyBinAt(rs, k);
      }
      HourlyBinAt(rs, 0);
      HourlyBinAt(rs, |HourlyMin(rs)| - 1);
    }
  }

  /** Each reading's hour lies between the hours of the earliest and the latest reading. */
  lemma HourWithinSpan(rs: seq<Reading>, i: int)
    requires 0 <= i < |rs|
    ensures HourIndex(Earliest(rs)) <= HourIndex(rs[i].ts) <= HourIndex(Latest(rs))
  {
    EarliestBounds(rs);
    LatestBounds(rs);
    HourIndexMonotone(Earliest(rs), rs[i].ts);
    HourIndexMonotone(rs[i].ts, Latest(rs));
  }

  /** `v` is the least present reading of counter `c` over the readings taken
      in hour `h`, missing exactly when none of them has that counter. */
  predicate IsHourMinimum(rs: seq<Reading>, h: int, c: Counter, v: Option<real>) {
    && (v.None? <==> forall i :: 0 <= i < |rs| && HourIndex(rs[i].ts) == h ==> ValueOf(rs[i], c).None?)
    && (v.Some? ==> exists i :: 0 <= i < |rs| && HourIndex(rs[i].ts) == h && ValueOf(rs[i], c) == v)
    && (v.Some? ==> forall i :: 0 <= i < |rs| && HourIndex(rs[i].ts) == h && ValueOf(rs[i], c).Some? ==>
                      v.value <= ValueOf(rs[i], c).value)
  }

  /** The bin of an hour is labelled by that hour and holds, for each counter,
      the least reading taken in that hour. */
  lemma HourBinMinimum(rs: seq<Reading>, h: int, c: Counter)
    ensures HourIndex(HourBin(rs, h).ts) == h
    ensures IsHourMinimum(rs, h, c, ValueOf(HourBin(rs, h), c))
  {
    var col := HourColumn(rs, h, c);
    var v := MinOf(col);
    assert ValueOf(HourBin(rs, h), c) == v by {
      match c
      case Consumption =>
      case Feed =>
    }
    HourStart(h);
    assert forall i :: 0 <= i < |rs| ==> col[i] == if HourIndex(rs[i].ts) == h then ValueOf(rs[i], c) else None;
    if v.Some? {
      var i :| 0 <= i < |col| && col[i] == v;
      assert HourIndex(rs[i].ts) == h && ValueOf(rs[i], c) == v;
    }
  }

  // ---------------------------------------------------------------------------
  // Groups: `index.hour.isin(dayrange).cumsum()`
  // ---------------------------------------------------------------------------

  /** A bin opens a new group when its hour of day is one of the two slider
      values; a slider value of 24 matches no hour. */
  predicate IsMarker(b: Reading, t0: int, t1: int) {
    HourOfDay(b.ts) == t0 || HourOfDay(b.ts) == t1
  }

  function MarkerTest(t0: int, t1: int): Reading -> bool {
    (b: Reading) => IsMarker(b, t0, t1)
  }

  /** The marker bins among `bins`. */
  function Markers(bins: seq<Reading>, t0: int, t1: int): seq<Reading> {
    Filter(bins, MarkerTest(t0, t1))
  }

  /** A bin together with its group id. */
  datatype Tagged = Tagged(group: nat, bin: Reading)

  /** The running count of marker bins, attached to each bin. */
  function Tag(bins: seq<Reading>, t0: int, t1: int): (tagged: seq<Tagged>)
    ensures |tagged| == |bins|
    decreases |bins|
  {
    if |bins| == 0 then []
    else
      var prefix := Tag(bins[..|bins| - 1], t0, t1);
      var before := if |prefix| == 0 then 0 else prefix[|prefix| - 1].group;
      var b := bins[|bins| - 1];
      prefix + [Tagged(before + (if IsMarker(b, t0, t1) then 1 else 0), b)]
  }

  /** Each bin keeps its place, and its group id is the number of marker bins
      up to and including it. */
  lemma {:induction false} TagCounts(bins: seq<Reading>, t0: int, t1: int)
    ensures forall k :: 0 <= k < |bins| ==>
      Tag(bins, t0, t1)[k].bin == bins[k] && Tag(bins, t0, t1)[k].group == |Markers(bins[..k + 1], t0, t1)|
    decreases |bins|
  {
    if |bins| > 0 {
      var n := |bins| - 1;
      TagCounts(bins[..n], t0, t1);
      var tagged := Tag(bins, t0, t1);
      var prefix := Tag(bins[..n], t0, t1);
      assert tagged[..n] == prefix;
      forall k | 0 <= k < n
        ensures tagged[k].bin == bins[k] && tagged[k].group == |Markers(bins[..k + 1], t0, t1)|
      {
        assert bins[..n][..k + 1] == bins[..k + 1];
      }
      assert bins[..n + 1] == bins;
      assert bins[..n + 1][..n] == bins[..n];
      if n > 0 {
        assert bins[..n][..n - 1 + 1] == bins[..n];
      }
    }
  }

  /** The group ids start at 1 exactly when the first bin is a marker and
      step up by one exactly at each marker bin. */
  lemma GroupSteps(bins: seq<Reading>, t0: int, t1: int)
    ensures var tagged := Tag(bins, t0, t1);
      && (|bins| > 0 ==> tagged[0].group == if IsMarker(bins[0], t0, t1) then 1 else 0)
      && (forall k :: 0 < k < |bins| ==>
            tagged[k].group == tagged[k - 1].group + if IsMarker(bins[k], t0, t1) then 1 else 0)
  {
    var tagged := Tag(bins, t0, t1);
    TagCounts(bins, t0, t1);
    if |bins| > 0 {
      assert bins[..1] == [bins[0]];
      assert bins[..1][..0] == [];
    }
    forall k | 0 < k < |bins|
      ensures tagged[k].group == tagged[k - 1].group + if IsMarker(bins[k], t0, t1) then 1 else 0
    {
      assert bins[..k + 1][..k] == bins[..k];
    }
  }

  /** The group ids never decrease along the bins. */
  lemma GroupsNonDecreasing(bins: seq<Reading>, t0: int, t1: int)
    ensures forall i, j :: 0 <= i <= j < |bins| ==> Tag(bins, t0, t1)[i].group <= Tag(bins, t0, t1)[j].group
  {
    var tagged := Tag(bins, t0, t1);
    TagCounts(bins, t0, t1);
    forall i, j | 0 <= i <= j < |bins| ensures tagged[i].group <= tagged[j].group {
      assert bins[..j + 1] == bins[..i + 1] + bins[i + 1..j + 1];
      FilterAppend(bins[..i + 1], bins[i + 1..j + 1], MarkerTest(t0, t1));
    }
  }

  /** With both slider values outside 0..23 (the slider reaches 24) no bin is
      a marker, and every bin is in group 0. */
  lemma NoMarkerHours(bins: seq<Reading>, t0: int, t1: int)
    requires !(0 <= t0 < 24) && !(0 <= t1 < 24)
    ensures forall k :: 0 <= k < |bins| ==> Tag(bins, t0, t1)[k].group == 0
  {
    var tagged := Tag(bins, t0, t1);
    GroupSteps(bins, t0, t1);
  }

  // ---------------------------------------------------------------------------
  // One row per group: `groupby("group").agg(min)`
  // ---------------------------------------------------------------------------

  /** The bins tagged with group `g`, in order. */
  function Members(tagged: seq<Tagged>, g: nat): seq<Reading>
    decreases |tagged|
  {
    if |tagged| == 0 then []
    else
      var prefix := Members(tagged[..|tagged| - 1], g);
      var x := tagged[|tagged| - 1];
      if x.group == g then prefix + [x.bin] else prefix
  }

  /** The row `agg(min)` makes of a group: its earliest instant and the least
      present reading of each counter. */
  function GroupRow(members: seq<Reading>): Reading
    requires |members| > 0
  {
    Reading(Earliest(members), MinOf(Column(members, Consumption)), MinOf(Column(members, Feed)))
  }

  /** Takes one more bin into the row of its group. */
  function Absorb(row: Reading, b: Reading): Reading {
    Reading(if row.ts <= b.ts then row.ts else b.ts, Min2(row.consumption, b.consumption), Min2(row.feed, b.feed))
  }

  /** The grouped rows, one per run of equal group ids: a bin joins the last
      row when it carries that row's group id and opens a new row otherwise. */
  function GroupMin(tagged: seq<Tagged>): (out: seq<Tagged>)
    ensures |out| <= |tagged|
    ensures |tagged| > 0 ==> |out| > 0 && out[|out| - 1].group == tagged[|tagged| - 1].group
    decreases |tagged|
  {
    if |tagged| == 0 then []
    else
      var prev := GroupMin(tagged[..|tagged| - 1]);
      var x := tagged[|tagged| - 1];
      if |prev| > 0 && prev[|prev| - 1].group == x.group then
        prev[..|prev| - 1] + [Tagged(x.group, Absorb(prev[|prev| - 1].bin, x.bin))]
      else prev + [x]
  }

  predicate NonDecreasingGroups(tagged: seq<Tagged>) {
    forall i, j :: 0 <= i <= j < |tagged| ==> tagged[i].group <= tagged[j].group
  }

  predicate AscendingBins(tagged: seq<Tagged>) {
    forall i, j :: 0 <= i < j < |tagged| ==> tagged[i].bin.ts < tagged[j].bin.ts
  }

  lemma GroupRowSingle(b: Reading)
    ensures GroupRow([b]) == b
  {
    assert Column([b], Consumption) == [b.consumption];
    assert Column([b], Feed) == [b.feed];
    assert [b.consumption][..0] == [];
    assert [b.feed][..0] == [];
  }

  lemma GroupRowSnoc(members: seq<Reading>, b: Reading)
    requires |members| > 0
    ensures GroupRow(members + [b]) == Absorb(GroupRow(members), b)
  {
    var all := members + [b];
    assert all[..|all| - 1] == members;
    forall c ensures Column(all, c)[..|all| - 1] == Column(members, c) && Column(all, c)[|all| - 1] == ValueOf(b, c) {
    }
  }

  lemma {:induction false} MembersAbsent(tagged: seq<Tagged>, g: nat)
    requires forall k :: 0 <= k < |tagged| ==> tagged[k].group != g
    ensures Members(tagged, g) == []
    decreases |tagged|
  {
    if |tagged| > 0 {
      MembersAbsent(tagged[..|tagged| - 1], g);
    }
  }

  /** The last bin either joins the last grouped row or opens a new one. */
  lemma GroupMinStep(tagged: seq<Tagged>)
    requires |tagged| > 0
    ensures var prev := GroupMin(tagged[..|tagged| - 1]);
      var x := tagged[|tagged| - 1];
      var joins := |prev| > 0 && prev[|prev| - 1].group == x.group;
      && (joins ==> (|GroupMin(tagged)| == |prev|
                  && GroupMin(tagged)[|prev| - 1] == Tagged(x.group, Absorb(prev[|prev| - 1].bin, x.bin))))
      && (!joins ==> |GroupMin(tagged)| == |prev| + 1 && GroupMin(tagged)[|prev|] == x)
      && (forall j :: 0 <= j < |prev| && (j < |prev| - 1 || !joins) ==> GroupMin(tagged)[j] == prev[j])
  {
  }

  /** With non-decreasing ids the grouped rows carry strictly increasing ids. */
  lemma GroupMinIncreasing(tagged: seq<Tagged>)
    requires NonDecreasingGroups(tagged)
    ensures forall i, j :: 0 <= i < j < |GroupMin(tagged)| ==> GroupMin(tagged)[i].group < GroupMin(tagged)[j].group
  {
    forall i, j | 0 <= i < j < |GroupMin(tagged)| ensures GroupMin(tagged)[i].group < GroupMin(tagged)[j].group {
      IncreasingAt(tagged, i, j);
    }
  }

  lemma {:induction false} IncreasingAt(tagged: seq<Tagged>, i: int, j: int)
    requires NonDecreasingGroups(tagged)
    requires 0 <= i < j < |GroupMin(tagged)|
    ensures GroupMin(tagged)[i].group < GroupMin(tagged)[j].group
    decreases |tagged|
  {
    var n := |tagged| - 1;
    var prefix := tagged[..n];
    var prev := GroupMin(prefix);
    PrefixNonDecreasing(tagged);
    if j < |prev| {
      GroupKept(tagged, i);
      GroupKept(tagged, j);
      IncreasingAt(prefix, i, j);
    } else {
      NewRowLater(tagged, prev, j);
      GroupKept(tagged, i);
      if i < |prev| - 1 {
        IncreasingAt(prefix, i, |prev| - 1);
      }
    }
  }

  lemma PrefixNonDecreasing(tagged: seq<Tagged>)
    requires NonDecreasingGroups(tagged) && |tagged| > 0
    ensures NonDecreasingGroups(tagged[..|tagged| - 1])
  {
  }

  /** A row past the earlier rows is the last bin, whose id exceeds theirs. */
  lemma NewRowLater(tagged: seq<Tagged>, prev: seq<Tagged>, j: int)
    requires NonDecreasingGroups(tagged)
    requires |tagged| > 0 && prev == GroupMin(tagged[..|tagged| - 1])
    requires |prev| <= j < |GroupMin(tagged)|
    ensures j == |prev| && GroupMin(tagged)[j].group == tagged[|tagged| - 1].group
    ensures |prev| > 0 ==> prev[|prev| - 1].group < tagged[|tagged| - 1].group
  {
    var n := |tagged| - 1;
    NewRowOpens(tagged);
    if |prev| > 0 {
      assert prev[|prev| - 1].group == tagged[..n][n - 1].group;
      assert tagged[n - 1].group <= tagged[n].group;
    }
  }

  /** Some row of `rows` carries id `g`. */
  predicate HasRow(rows: seq<Tagged>, g: nat) {
    exists j :: 0 <= j < |rows| && rows[j].group == g
  }

  /** Every id that occurs has a grouped row. */
  lemma GroupMinCovers(tagged: seq<Tagged>)
    ensures forall k :: 0 <= k < |tagged| ==> HasRow(GroupMin(tagged), tagged[k].group)
  {
    forall k | 0 <= k < |tagged| ensures HasRow(GroupMin(tagged), tagged[k].group) {
      CoversAt(tagged, k);
    }
  }

  lemma {:induction false} CoversAt(tagged: seq<Tagged>, k: int)
    requires 0 <= k < |tagged|
    ensures HasRow(GroupMin(tagged), tagged[k].group)
    decreases |tagged|
  {
    if k == |tagged| - 1 {
      LastRowCarries(tagged);
    } else {
      var prefix := tagged[..|tagged| - 1];
      CoversAt(prefix, k);
      CoverKept(tagged, prefix, GroupMin(prefix), k);
    }
  }

  /** An id with a row before the last bin still has one after it. */
  lemma CoverKept(tagged: seq<Tagged>, prefix: seq<Tagged>, prev: seq<Tagged>, k: int)
    requires |tagged| > 0 && prefix == tagged[..|tagged| - 1] && prev == GroupMin(prefix)
    requires 0 <= k < |prefix| && HasRow(prev, prefix[k].group)
    ensures HasRow(GroupMin(tagged), tagged[k].group)
  {
    var j :| 0 <= j < |prev| && prev[j].group == prefix[k].group;
    GroupKept(tagged, j);
    assert GroupMin(tagged)[j].group == tagged[k].group;
  }

  /** The last grouped row carries the last bin's id. */
  lemma LastRowCarries(tagged: seq<Tagged>)
    requires |tagged| > 0
    ensures HasRow(GroupMin(tagged), tagged[|tagged| - 1].group)
  {
    assert GroupMin(tagged)[|GroupMin(tagged)| - 1].group == tagged[|tagged| - 1].group;
  }

  /** The last bin leaves every earlier row's id in place. */
  lemma GroupKept(tagged: seq<Tagged>, j: int)
    requires |tagged| > 0 && 0 <= j < |GroupMin(tagged[..|tagged| - 1])|
    ensures j < |GroupMin(tagged)| && GroupMin(tagged)[j].group == GroupMin(tagged[..|tagged| - 1])[j].group
  {
    GroupMinStep(tagged);
  }

  /** With non-decreasing ids each grouped row is the `agg(min)` row of all
      the bins carrying its id. */
  lemma {:induction false} GroupMinRows(tagged: seq<Tagged>)
    requires NonDecreasingGroups(tagged)
    ensures forall j :: 0 <= j < |GroupMin(tagged)| ==> IsGroupRow(tagged, GroupMin(tagged)[j])
    decreases |tagged|
  {
    if |tagged| > 0 {
      GroupMinRows(tagged[..|tagged| - 1]);
      GroupMinIncreasing(tagged[..|tagged| - 1]);
      forall j | 0 <= j < |GroupMin(tagged)| ensures IsGroupRow(tagged, GroupMin(tagged)[j]) {
        GroupMinRowStep(tagged, GroupMin(tagged[..|tagged| - 1]), j);
      }
    }
  }

  /** `row` is the `agg(min)` row of the bins carrying its id. */
  predicate IsGroupRow(tagged: seq<Tagged>, row: Tagged) {
    |Members(tagged, row.group)| > 0 && row.bin == GroupRow(Members(tagged, row.group))
  }

  lemma GroupMinRowStep(tagged: seq<Tagged>, prev: seq<Tagged>, j: int)
    requires NonDecreasingGroups(tagged)
    requires |tagged| > 0 && prev == GroupMin(tagged[..|tagged| - 1])
    requires forall i :: 0 <= i < |prev| ==> IsGroupRow(tagged[..|tagged| - 1], prev[i])
    requires forall i, k :: 0 <= i < k < |prev| ==> prev[i].group < prev[k].group
    requires 0 <= j < |GroupMin(tagged)|
    ensures IsGroupRow(tagged, GroupMin(tagged)[j])
  {
    var joins := |prev| > 0 && prev[|prev| - 1].group == tagged[|tagged| - 1].group;
    if j < |prev| - 1 || (j < |prev| && !joins) {
      EarlierGroup(tagged, prev, j);
      KeptGroupRow(tagged, prev, j);
    } else if joins {
      JoinedGroupRow(tagged, prev, j);
    } else {
      OpenedGroupRow(tagged, prev, j);
    }
  }

  /** A row the last bin leaves alone belongs to an earlier group than the bin's. */
  lemma EarlierGroup(tagged: seq<Tagged>, prev: seq<Tagged>, j: int)
    requires NonDecreasingGroups(tagged)
    requires |tagged| > 0 && prev == GroupMin(tagged[..|tagged| - 1])
    requires forall i, k :: 0 <= i < k < |prev| ==> prev[i].group < prev[k].group
    requires 0 <= j < |prev| && (j < |prev| - 1 || prev[|prev| - 1].group != tagged[|tagged| - 1].group)
    ensures prev[j].group < tagged[|tagged| - 1].group
  {
    var n := |tagged| - 1;
    assert n > 0 && prev[|prev| - 1].group == tagged[..n][n - 1].group;
    assert tagged[n - 1].group <= tagged[n].group;
    if j < |prev| - 1 {
      assert prev[j].group < prev[|prev| - 1].group;
    }
  }

  /** A bin of a later group leaves an earlier group's row as it was. */
  lemma KeptGroupRow(tagged: seq<Tagged>, prev: seq<Tagged>, j: int)
    requires |tagged| > 0 && prev == GroupMin(tagged[..|tagged| - 1])
    requires 0 <= j < |prev| && IsGroupRow(tagged[..|tagged| - 1], prev[j])
    requires prev[j].group < tagged[|tagged| - 1].group
    ensures j < |GroupMin(tagged)| && IsGroupRow(tagged, GroupMin(tagged)[j])
  {
    GroupMinStep(tagged);
    assert GroupMin(tagged)[j] == prev[j];
    MembersStep(tagged, prev[j].group);
  }

  /** A bin of the last row's group is absorbed into that row. */
  lemma JoinedGroupRow(tagged: seq<Tagged>, prev: seq<Tagged>, j: int)
    requires |tagged| > 0 && prev == GroupMin(tagged[..|tagged| - 1])
    requires |prev| > 0 && IsGroupRow(tagged[..|tagged| - 1], prev[|prev| - 1])
    requires prev[|prev| - 1].group == tagged[|tagged| - 1].group
    requires |prev| - 1 <= j < |GroupMin(tagged)|
    ensures IsGroupRow(tagged, GroupMin(tagged)[j])
  {
    var x := tagged[|tagged| - 1];
    GroupMinStep(tagged);
    assert GroupMin(tagged)[j] == Tagged(x.group, Absorb(prev[|prev| - 1].bin, x.bin));
    MembersStep(tagged, x.group);
    GroupRowSnoc(Members(tagged[..|tagged| - 1], x.group), x.bin);
  }

  /** A bin that opens a new row is the only member of its group so far. */
  lemma OpenedGroupRow(tagged: seq<Tagged>, prev: seq<Tagged>, j: int)
    requires NonDecreasingGroups(tagged)
    requires |tagged| > 0 && prev == GroupMin(tagged[..|tagged| - 1])
    requires |prev| == 0 || prev[|prev| - 1].group != tagged[|tagged| - 1].group
    requires |prev| <= j < |GroupMin(tagged)|
    ensures IsGroupRow(tagged, GroupMin(tagged)[j])
  {
    var n := |tagged| - 1;
    var prefix := tagged[..n];
    var x := tagged[n];
    GroupMinStep(tagged);
    assert GroupMin(tagged)[j] == x;
    if n > 0 {
      assert prev[|prev| - 1].group == prefix[n - 1].group;
      assert tagged[n - 1].group <= x.group;
      forall k | 0 <= k < n ensures prefix[k].group != x.group {
        assert prefix[k].group <= tagged[n - 1].group;
      }
    }
    MembersStep(tagged, x.group);
    MembersAbsent(prefix, x.group);
    GroupRowSingle(x.bin);
  }

  lemma MembersStep(tagged: seq<Tagged>, g: nat)
    requires |tagged| > 0
    ensures var x := tagged[|tagged| - 1];
      Members(tagged, g) == Members(tagged[..|tagged| - 1], g) + if x.group == g then [x.bin] else []
  {
  }

  /** Over bins in time order, the grouped rows are in time order too, and
      none is later than the last bin. */
  lemma {:induction false} GroupMinAscending(tagged: seq<Tagged>)
    requires AscendingBins(tagged)
    ensures AscendingBins(GroupMin(tagged))
    ensures |tagged| > 0 ==> GroupMin(tagged)[|GroupMin(tagged)| - 1].bin.ts <= tagged[|tagged| - 1].bin.ts
    decreases |tagged|
  {
    if |tagged| > 0 {
      var prefix := tagged[..|tagged| - 1];
      GroupMinAscending(prefix);
      GroupMinStepTimes(tagged);
      AscendingAfterStep(GroupMin(prefix), GroupMin(tagged), tagged[|tagged| - 1].bin.ts);
    }
  }

  lemma AscendingAfterStep(prev: seq<Tagged>, out: seq<Tagged>, t: int)
    requires AscendingBins(prev)
    requires |out| == |prev| || |out| == |prev| + 1
    requires forall j :: 0 <= j < |prev| ==> out[j].bin.ts == prev[j].bin.ts
    requires |out| > |prev| ==> out[|prev|].bin.ts == t
    requires |prev| > 0 ==> prev[|prev| - 1].bin.ts < t
    ensures AscendingBins(out)
  {
    forall i, j | 0 <= i < j < |out| ensures out[i].bin.ts < out[j].bin.ts {
      if j < |prev| {
        assert prev[i].bin.ts < prev[j].bin.ts;
      } else if i < |prev| - 1 {
        assert prev[i].bin.ts < prev[|prev| - 1].bin.ts;
      }
    }
  }

  /** How the last bin moves the instants of the grouped rows. */
  lemma GroupMinStepTimes(tagged: seq<Tagged>)
    requires AscendingBins(tagged) && |tagged| > 0
    requires var prev := GroupMin(tagged[..|tagged| - 1]);
      |tagged| > 1 ==> prev[|prev| - 1].bin.ts <= tagged[|tagged| - 2].bin.ts
    ensures var prev := GroupMin(tagged[..|tagged| - 1]);
      && (forall j :: 0 <= j < |prev| ==> GroupMin(tagged)[j].bin.ts == prev[j].bin.ts)
      && (|GroupMin(tagged)| > |prev| ==> GroupMin(tagged)[|prev|].bin.ts == tagged[|tagged| - 1].bin.ts)
      && (|GroupMin(tagged)| == |prev| || |GroupMin(tagged)| == |prev| + 1)
      && (|prev| > 0 ==> prev[|prev| - 1].bin.ts < tagged[|tagged| - 1].bin.ts)
      && GroupMin(tagged)[|GroupMin(tagged)| - 1].bin.ts <= tagged[|tagged| - 1].bin.ts
  {
    var n := |tagged| - 1;
    GroupMinStep(tagged);
    if n > 0 {
      assert tagged[n - 1].bin.ts < tagged[n].bin.ts;
    }
  }

  /** Bin `k` opens its group: it is the first bin or its id differs from the
      bin before. */
  predicate OpensGroup(tagged: seq<Tagged>, k: int) {
    0 <= k < |tagged| && (k == 0 || tagged[k - 1].group != tagged[k].group)
  }

  /** `row` carries the instant and the id of a bin that opens a group. */
  predicate StampedByOpener(tagged: seq<Tagged>, row: Tagged) {
    exists k :: 0 <= k < |tagged| && OpensGroup(tagged, k) && row.bin.ts == tagged[k].bin.ts && row.group == tagged[k].group
  }

  /** Over bins in time order, each grouped row is stamped with the instant of
      the bin that opened its group. */
  lemma {:induction false} GroupMinOpens(tagged: seq<Tagged>)
    requires AscendingBins(tagged)
    ensures forall j :: 0 <= j < |GroupMin(tagged)| ==> StampedByOpener(tagged, GroupMin(tagged)[j])
    decreases |tagged|
  {
    if |tagged| > 0 {
      var prefix := tagged[..|tagged| - 1];
      GroupMinOpens(prefix);
      forall j | 0 <= j < |GroupMin(tagged)| ensures StampedByOpener(tagged, GroupMin(tagged)[j]) {
        OpensAfterStep(tagged, GroupMin(prefix), j);
      }
    }
  }

  lemma OpensAfterStep(tagged: seq<Tagged>, prev: seq<Tagged>, j: int)
    requires AscendingBins(tagged) && |tagged| > 0 && prev == GroupMin(tagged[..|tagged| - 1])
    requires forall i :: 0 <= i < |prev| ==> StampedByOpener(tagged[..|tagged| - 1], prev[i])
    requires 0 <= j < |GroupMin(tagged)|
    ensures StampedByOpener(tagged, GroupMin(tagged)[j])
  {
    var n := |tagged| - 1;
    if j < |prev| {
      KeptRow(tagged, j);
      OpenerCarries(tagged, prev[j], GroupMin(tagged)[j]);
    } else {
      NewRowOpens(tagged);
    }
  }

  /** A row added by the last bin is that bin, and the bin opens its group. */
  lemma NewRowOpens(tagged: seq<Tagged>)
    requires |tagged| > 0
    ensures var n := |tagged| - 1;
      |GroupMin(tagged)| > |GroupMin(tagged[..n])| ==>
        |GroupMin(tagged)| == |GroupMin(tagged[..n])| + 1
        && GroupMin(tagged)[|GroupMin(tagged[..n])|] == tagged[n] && OpensGroup(tagged, n)
  {
    var n := |tagged| - 1;
    var prefix := tagged[..n];
    GroupMinStep(tagged);
    if n > 0 {
      assert prefix[n - 1] == tagged[n - 1];
    }
  }

  /** Over bins in time order, the last bin leaves the instant and the id of
      each earlier grouped row alone. */
  lemma KeptRow(tagged: seq<Tagged>, j: int)
    requires AscendingBins(tagged) && |tagged| > 0 && 0 <= j < |GroupMin(tagged[..|tagged| - 1])|
    ensures GroupMin(tagged)[j].bin.ts == GroupMin(tagged[..|tagged| - 1])[j].bin.ts
    ensures GroupMin(tagged)[j].group == GroupMin(tagged[..|tagged| - 1])[j].group
  {
    GroupMinAscending(tagged[..|tagged| - 1]);
    GroupMinStepTimes(tagged);
    GroupMinStep(tagged);
  }

  lemma OpenerCarries(tagged: seq<Tagged>, row: Tagged, row': Tagged)
    requires |tagged| > 0 && StampedByOpener(tagged[..|tagged| - 1], row)
    requires row'.bin.ts == row.bin.ts && row'.group == row.group
    ensures StampedByOpener(tagged, row')
  {
    var prefix := tagged[..|tagged| - 1];
    var k :| 0 <= k < |prefix| && OpensGroup(prefix, k) && row.bin.ts == prefix[k].bin.ts && row.group == prefix[k].group;
    assert prefix[k] == tagged[k];
    assert k > 0 ==> prefix[k - 1] == tagged[k - 1];
    assert OpensGroup(tagged, k);
  }

  /** The grouped rows of the hourly bins for slider values `t0` and `t1`. */
  function Grouped(bins: seq<Reading>, t0: int, t1: int): seq<Tagged> {
    GroupMin(Tag(bins, t0, t1))
  }

  /** Over bins in time order, a grouped row starts at one of the two slider
      hours exactly when it is not group 0, the group of the bins before the
      first marker. */
  lemma GroupedAtMarkers(bins: seq<Reading>, t0: int, t1: int)
    requires forall i, j :: 0 <= i < j < |bins| ==> bins[i].ts < bins[j].ts
    ensures forall j :: 0 <= j < |Grouped(bins, t0, t1)| ==> OpensAtMarker(bins, t0, t1, Grouped(bins, t0, t1)[j])
  {
    var tagged := Tag(bins, t0, t1);
    TagCounts(bins, t0, t1);
    GroupSteps(bins, t0, t1);
    GroupMinOpens(tagged);
    forall j | 0 <= j < |Grouped(bins, t0, t1)| ensures OpensAtMarker(bins, t0, t1, Grouped(bins, t0, t1)[j]) {
      OpenerAtMarker(bins, t0, t1, Grouped(bins, t0, t1)[j]);
    }
  }

  /** `row` starts at a slider hour exactly when it is not group 0, and
      group 0 starts at the first bin; either way it starts at a bin. */
  predicate OpensAtMarker(bins: seq<Reading>, t0: int, t1: int, row: Tagged) {
    && (IsMarker(row.bin, t0, t1) <==> row.group > 0)
    && (row.group == 0 ==> |bins| > 0 && row.bin.ts == bins[0].ts)
    && (exists k :: 0 <= k < |bins| && row.bin.ts == bins[k].ts)
  }

  lemma OpenerAtMarker(bins: seq<Reading>, t0: int, t1: int, row: Tagged)
    requires StampedByOpener(Tag(bins, t0, t1), row)
    requires forall k :: 0 <= k < |bins| ==> Tag(bins, t0, t1)[k].bin == bins[k]
    requires |bins| > 0 ==> Tag(bins, t0, t1)[0].group == if IsMarker(bins[0], t0, t1) then 1 else 0
    requires forall k :: 0 < k < |bins| ==>
      Tag(bins, t0, t1)[k].group == Tag(bins, t0, t1)[k - 1].group + if IsMarker(bins[k], t0, t1) then 1 else 0
    ensures OpensAtMarker(bins, t0, t1, row)
  {
    var tagged := Tag(bins, t0, t1);
    var k :| 0 <= k < |tagged| && OpensGroup(tagged, k) && row.bin.ts == tagged[k].bin.ts && row.group == tagged[k].group;
    assert HourOfDay(row.bin.ts) == HourOfDay(bins[k].ts);
  }

  // ---------------------------------------------------------------------------
  // Changes per group: `diff()` and the net balance
  // ---------------------------------------------------------------------------

  /** A row of the results table: the change of each counter since the
      previous group, and consumption minus feed. */
  datatype Summary = Summary(ts: int, consumption: Option<real>, feed: Option<real>, net: Option<real>)

  function DeltaOf(s: Summary, c: Counter): Option<real> {
    match c
    case Consumption => s.consumption
    case Feed => s.feed
  }

  /** The row made of grouped row `k`: the first has no previous group, so its
      changes are missing. */
  function Delta(rows: seq<Reading>, k: int): Summary
    requires 0 <= k < |rows|
  {
    var consumption := if k == 0 then None else Sub(rows[k].consumption, rows[k - 1].consumption);
    var feed := if k == 0 then None else Sub(rows[k].feed, rows[k - 1].feed);
    Summary(rows[k].ts, consumption, feed, Sub(consumption, feed))
  }

  function Deltas(rows: seq<Reading>): seq<Summary> {
    seq(|rows|, k requires 0 <= k < |rows| => Delta(rows, k))
  }

  /** The change of counter `c` summed over rows `i+1..j`. */
  function DeltaSum(ds: seq<Summary>, i: int, j: int, c: Counter): real
    requires 0 <= i <= j < |ds|
    requires forall k :: i < k <= j ==> DeltaOf(ds[k], c).Some?
    decreases j - i
  {
    if j == i then 0.0 else DeltaSum(ds, i, j - 1, c) + DeltaOf(ds[j], c).value
  }

  /** The changes telescope: over a stretch of rows with every change present,
      they add up to the difference of the group minima at its ends. */
  lemma {:induction false} DeltasTelescope(rows: seq<Reading>, i: int, j: int, c: Counter)
    requires 0 <= i <= j < |rows|
    requires ValueOf(rows[i], c).Some?
    requires forall k :: i < k <= j ==> DeltaOf(Deltas(rows)[k], c).Some?
    ensures ValueOf(rows[j], c).Some?
    ensures DeltaSum(Deltas(rows), i, j, c) == ValueOf(rows[j], c).value - ValueOf(rows[i], c).value
    decreases j - i
  {
    if j > i {
      DeltasTelescope(rows, i, j - 1, c);
      var d := Deltas(rows)[j];
      assert d == Delta(rows, j);
      match c
      case Consumption =>
      case Feed =>
    }
  }

  /** A change is present exactly when both group minima it compares are, and
      is then the later minimum less the earlier; the net balance is present
      exactly when both changes are. */
  lemma DeltaPresence(rows: seq<Reading>, k: int)
    requires 0 <= k < |rows|
    ensures k == 0 ==> Deltas(rows)[k].consumption.None? && Deltas(rows)[k].feed.None? && Deltas(rows)[k].net.None?
    ensures forall c :: DeltaOf(Deltas(rows)[k], c).Some? <==>
      k > 0 && ValueOf(rows[k], c).Some? && ValueOf(rows[k - 1], c).Some?
    ensures forall c :: DeltaOf(Deltas(rows)[k], c).Some? ==>
      DeltaOf(Deltas(rows)[k], c).value == ValueOf(rows[k], c).value - ValueOf(rows[k - 1], c).value
    ensures Deltas(rows)[k].net.Some? <==> Deltas(rows)[k].consumption.Some? && Deltas(rows)[k].feed.Some?
    ensures Deltas(rows)[k].net.Some? ==>
      Deltas(rows)[k].net.value == Deltas(rows)[k].consumption.value - Deltas(rows)[k].feed.value
  {
    var d := Deltas(rows)[k];
    assert d == Delta(rows, k);
    forall c ensures DeltaOf(d, c).Some? <==> k > 0 && ValueOf(rows[k], c).Some? && ValueOf(rows[k - 1], c).Some?
      ensures DeltaOf(d, c).Some? ==> DeltaOf(d, c).value == ValueOf(rows[k], c).value - ValueOf(rows[k - 1], c).value
    {
      match c
      case Consumption =>
      case Feed =>
    }
  }

  // ---------------------------------------------------------------------------
  // The date range, `.loc[start:end]`, and the displayed table, `dropna()`
  // ---------------------------------------------------------------------------

  /** The test for a row inside the date range, both ends included. */
  function Within(start: int, end: int): Summary -> bool {
    (s: Summary) => start <= s.ts <= end
  }

  /** A row with no missing cell. */
  predicate Complete(s: Summary) {
    s.consumption.Some? && s.feed.Some? && s.net.Some?
  }

  predicate Earlier(a: Summary, b: Summary) {
    a.ts < b.ts
  }

  function Rows(out: seq<Tagged>): seq<Reading> {
    seq(|out|, j requires 0 <= j < |out| => out[j].bin)
  }

  /** The table before the date range is applied. */
  function SummaryTable(rs: seq<Reading>, t0: int, t1: int): seq<Summary> {
    Deltas(Rows(Grouped(HourlyMin(rs), t0, t1)))
  }

  /** What the analysis stores (`calculated`, missing cells kept) and what it
      shows (`displayed`, rows with a missing cell dropped). */
  datatype Analysis = Analysis(calculated: seq<Summary>, displayed: seq<Summary>)

  /** The analysis for the slider hours `t0`, `t1` and the date range
      `start`..`end` (instants; a calendar date stands for its midnight). */
  function ShowDataframe(rs: seq<Reading>, t0: int, t1: int, start: int, end: int): Analysis {
    var calculated := Filter(SummaryTable(rs, t0, t1), Within(start, end));
    Analysis(calculated, Filter(calculated, Complete))
  }

  /** The stored table holds exactly the rows of the full table inside the
      range, and the displayed table exactly the stored rows with no missing cell. */
  lemma ShowDataframeRange(rs: seq<Reading>, t0: int, t1: int, start: int, end: int)
    ensures forall x :: x in ShowDataframe(rs, t0, t1, start, end).calculated <==>
      x in SummaryTable(rs, t0, t1) && start <= x.ts <= end
    ensures forall x :: x in ShowDataframe(rs, t0, t1, start, end).displayed <==>
      x in ShowDataframe(rs, t0, t1, start, end).calculated && Complete(x)
  {
    var a := ShowDataframe(rs, t0, t1, start, end);
    forall x ensures x in a.calculated <==> x in SummaryTable(rs, t0, t1) && start <= x.ts <= end {
      FilterMember(SummaryTable(rs, t0, t1), Within(start, end), x);
    }
    forall x ensures x in a.displayed <==> x in a.calculated && Complete(x) {
      FilterMember(a.calculated, Complete, x);
    }
  }

  /** The full table is in strictly increasing time order. */
  lemma SummaryTableOrdered(rs: seq<Reading>, t0: int, t1: int)
    ensures Ordered(SummaryTable(rs, t0, t1), Earlier)
  {
    var bins := HourlyMin(rs);
    var tagged := Tag(bins, t0, t1);
    HourlyBinsAligned(rs);
    TagCounts(bins, t0, t1);
    GroupMinAscending(tagged);
    RowsOrdered(GroupMin(tagged));
  }

  lemma RowsOrdered(out: seq<Tagged>)
    requires AscendingBins(out)
    ensures Ordered(Deltas(Rows(out)), Earlier)
  {
    var table := Deltas(Rows(out));
    forall i, j | 0 <= i < j < |table| ensures Earlier(table[i], table[j]) {
      assert table[i].ts == out[i].bin.ts && table[j].ts == out[j].bin.ts;
    }
  }

  /** The stored and the displayed tables are in strictly increasing time order. */
  lemma ShowDataframeOrdered(rs: seq<Reading>, t0: int, t1: int, start: int, end: int)
    ensures Ordered(ShowDataframe(rs, t0, t1, start, end).calculated, Earlier)
    ensures Ordered(ShowDataframe(rs, t0, t1, start, end).displayed, Earlier)
  {
    var table := SummaryTable(rs, t0, t1);
    SummaryTableOrdered(rs, t0, t1);
    FilterKeepsOrdered(table, Within(start, end), Earlier);
    FilterKeepsOrdered(Filter(table, Within(start, end)), Complete, Earlier);
  }

  /** Every row of the full table starts on a whole hour: at one of the two
      slider hours, or at the hour of the earliest reading (the row of the
      bins before the first slider hour). */
  lemma ShowDataframeHours(rs: seq<Reading>, t0: int, t1: int)
    ensures forall i :: 0 <= i < |SummaryTable(rs, t0, t1)| ==>
      var ts := SummaryTable(rs, t0, t1)[i].ts;
      ts % SecondsPerHour == 0 && (HourOfDay(ts) == t0 || HourOfDay(ts) == t1 || ts == HourIndex(Earliest(rs)) * SecondsPerHour)
  {
    var bins := HourlyMin(rs);
    var out := Grouped(bins, t0, t1);
    var table := SummaryTable(rs, t0, t1);
    HourlyBinsAligned(rs);
    GroupedAtMarkers(bins, t0, t1);
    forall i | 0 <= i < |table|
      ensures table[i].ts % SecondsPerHour == 0
      ensures HourOfDay(table[i].ts) == t0 || HourOfDay(table[i].ts) == t1 || table[i].ts == HourIndex(Earliest(rs)) * SecondsPerHour
    {
      assert table[i].ts == out[i].bin.ts;
      var k :| 0 <= k < |bins| && out[i].bin.ts == bins[k].ts;
    }
  }
}
