/** Reading and consolidating the meter's CSV exports (`read_files`): the
    files' rows are concatenated, exact duplicate rows dropped, each row
    stamped with the instant parsed from its date and time text, the rows
    sorted by that instant, rows without both counter readings and rows from
    before the meter's clock was set dropped, and the comma-decimal counter
    text read as numbers. */
module Consolidation {
  import opened Wrappers
  import opened Seqs
  import opened Timestamps
  import opened CounterText

  /** One row of a CSV export after `read_csv`: the seven named columns as text.
      The counter and identification cells may be missing. */
  datatype RawRow = RawRow(
    date: string, time: string,
    consumption: Option<string>, feed: Option<string>,
    serial: Option<string>, meterNumber: Option<string>, status: Option<string>)

  /** An uploaded file: its display name and its rows. */
  datatype UploadedFile = UploadedFile(name: string, rows: seq<RawRow>)

  /** A row once the instant is its index and the five text columns are gone. */
  datatype Stamped = Stamped(ts: int, consumption: Option<string>, feed: Option<string>)

  /** A consolidated reading: cumulative counters in kWh, missing as `None`. */
  datatype Reading = Reading(ts: int, consumption: Option<real>, feed: Option<real>)

  datatype ReadError = MalformedTimestamp | MalformedCounter

  /** The two counter columns, `1.8.0[kWh]` and `2.8.0[kWh]`. */
  datatype Counter = Consumption | Feed

  const Counters: seq<Counter> := [Consumption, Feed]

  function CellOf(st: Stamped, c: Counter): Option<string> {
    match c
    case Consumption => st.consumption
    case Feed => st.feed
  }

  function ValueOf(r: Reading, c: Counter): Option<real> {
    match c
    case Consumption => r.consumption
    case Feed => r.feed
  }

  /** The names of the files, in upload order. */
  function Names(files: seq<UploadedFile>): (names: seq<string>)
    ensures |names| == |files|
    ensures forall i :: 0 <= i < |files| ==> names[i] == files[i].name
  {
    seq(|files|, i requires 0 <= i < |files| => files[i].name)
  }

  /** `pd.concat(..., ignore_index=True)` over the files in order. */
  function Concat(files: seq<UploadedFile>): (rows: seq<RawRow>)
    ensures forall i, row :: 0 <= i < |files| && row in files[i].rows ==> row in rows
    ensures forall row :: row in rows ==> exists i :: 0 <= i < |files| && row in files[i].rows
    decreases |files|
  {
    if |files| == 0 then []
    else Concat(files[..|files| - 1]) + files[|files| - 1].rows
  }

  /** The instant of one row, from `Date[UTC]` + `_` + `Time[UTC]`. */
  function Stamp(row: RawRow): (r: Option<Stamped>)
    ensures r.Some? ==> r.value.consumption == row.consumption && r.value.feed == row.feed
  {
    match ParseTimestamp(row.date, row.time)
    case None => None
    case Some(ts) => Some(Stamped(ts, row.consumption, row.feed))
  }

  /** `pd.to_datetime` over the whole column: one malformed row fails the read. */
  function StampAll(rows: seq<RawRow>): (r: Result<seq<Stamped>, ReadError>)
    ensures r.Failure? ==> r.error == MalformedTimestamp
    ensures r.Success? ==> |r.value| == |rows|
  {
    match MapAll(rows, Stamp)
    case None => Failure(MalformedTimestamp)
    case Some(stamped) => Success(stamped)
  }

  /** Stamping succeeds exactly when every row's instant parses, and keeps the rows in place. */
  lemma StampAllSpec(rows: seq<RawRow>)
    ensures StampAll(rows).Success? <==> forall i :: 0 <= i < |rows| ==> Stamp(rows[i]).Some?
    ensures StampAll(rows).Success? ==> forall i :: 0 <= i < |rows| ==> Stamp(rows[i]) == Some(StampAll(rows).value[i])
  {
    MapAllSpec(rows, Stamp);
  }

  predicate NotLater(a: Stamped, b: Stamped) {
    a.ts <= b.ts
  }

  function Insert(x: Stamped, s: seq<Stamped>): (r: seq<Stamped>)
    requires Ordered(s, NotLater)
    ensures Ordered(r, NotLater)
    ensures multiset(r) == multiset(s) + multiset{x}
    decreases |s|
  {
    if |s| == 0 || x.ts <= s[0].ts then
      OrderedCons(x, s);
      [x] + s
    else
      OrderedSuffix(s);
      var tail := Insert(x, s[1..]);
      assert s == [s[0]] + s[1..];
      OrderedConsMultiset(s[0], tail, multiset(s[1..]) + multiset{x});
      [s[0]] + tail
  }

  /** `sort_index()`: rows in order of their instants. */
  function SortByTime(s: seq<Stamped>): (r: seq<Stamped>)
    ensures Ordered(r, NotLater)
    ensures multiset(r) == multiset(s)
    decreases |s|
  {
    if |s| == 0 then []
    else
      var sorted := SortByTime(s[..|s| - 1]);
      assert s == s[..|s| - 1] + [s[|s| - 1]];
      Insert(s[|s| - 1], sorted)
  }

  /** `dropna(thresh=2)`: both remaining columns are the counters, so both must be present. */
  predicate HasTwoValues(st: Stamped) {
    (if st.consumption.Some? then 1 else 0) + (if st.feed.Some? then 1 else 0) >= 2
  }

  /** Rows stamped before 1970-01-30 come from a meter whose clock is not yet set. */
  predicate Synced(st: Stamped) {
    !(st.ts < SyncCutoff())
  }

  predicate Kept(st: Stamped) {
    HasTwoValues(st) && Synced(st)
  }

  /** The two row-dropping steps, in the order the pipeline applies them. */
  function Survivors(sorted: seq<Stamped>): seq<Stamped> {
    Filter(Filter(sorted, HasTwoValues), Synced)
  }

  /** A counter cell that is present but is not a decimal once `,` reads as `.`. */
  predicate CellFails(cell: Option<string>) {
    cell.Some? && ParseCounter(cell.value).None?
  }

  function CellValue(cell: Option<string>): Option<real> {
    if cell.None? then None else ParseCounter(cell.value)
  }

  /** One cell of `str.replace(',', '.').astype(float)`; `None` when the cell is malformed. */
  function ConvertCell(cell: Option<string>): Option<Option<real>> {
    if CellFails(cell) then None else Some(CellValue(cell))
  }

  /** A row whose counter text is malformed. */
  predicate CounterFails(st: Stamped) {
    CellFails(st.consumption) || CellFails(st.feed)
  }

  predicate RowFails(row: RawRow) {
    CellFails(row.consumption) || CellFails(row.feed)
  }

  /** `str.replace(',', '.').astype(float)` over one column: one malformed cell fails the read. */
  function ConvertColumn(cells: seq<Option<string>>): (r: Result<seq<Option<real>>, ReadError>)
    ensures r.Failure? ==> r.error == MalformedCounter
    ensures r.Success? ==> |r.value| == |cells|
  {
    match MapAll(cells, ConvertCell)
    case None => Failure(MalformedCounter)
    case Some(values) => Success(values)
  }

  /** Conversion succeeds exactly when no cell is malformed, and reads every cell in place. */
  lemma ConvertColumnSpec(cells: seq<Option<string>>)
    ensures ConvertColumn(cells).Success? <==> forall i :: 0 <= i < |cells| ==> !CellFails(cells[i])
    ensures ConvertColumn(cells).Success? ==>
      forall i :: 0 <= i < |cells| ==> ConvertColumn(cells).value[i] == CellValue(cells[i])
  {
    MapAllSpec(cells, ConvertCell);
  }

  function Cells(rows: seq<Stamped>, c: Counter): seq<Option<string>> {
    seq(|rows|, i requires 0 <= i < |rows| => CellOf(rows[i], c))
  }

  /** The readings of `rows` from their two converted columns. */
  function Assemble(rows: seq<Stamped>, consumption: seq<Option<real>>, feed: seq<Option<real>>): (r: seq<Reading>)
    requires |consumption| == |rows| && |feed| == |rows|
    ensures |r| == |rows|
    ensures forall i :: 0 <= i < |rows| ==> r[i] == Reading(rows[i].ts, consumption[i], feed[i])
  {
    seq(|rows|, i requires 0 <= i < |rows| => Reading(rows[i].ts, consumption[i], feed[i]))
  }

  /** The readings of the kept rows, converting the consumption column and then the feed column. */
  function ConvertReadings(kept: seq<Stamped>): Result<seq<Reading>, ReadError> {
    var consumption :- ConvertColumn(Cells(kept, Consumption));
    var feed :- ConvertColumn(Cells(kept, Feed));
    Success(Assemble(kept, consumption, feed))
  }

  /** The readings the files consolidate to, or the error that stops the read. */
  function Consolidate(files: seq<UploadedFile>): Result<seq<Reading>, ReadError> {
    var stamped :- StampAll(DropDuplicates(Concat(files)));
    ConvertReadings(Survivors(SortByTime(stamped)))
  }

  /** The reactive state `read_files` writes: the table of loaded file names and the consolidated data. */
  class Session {
    var selectedFiles: seq<string>
    var originalData: seq<Reading>

    constructor ()
      ensures selectedFiles == [] && originalData == []
    {
      selectedFiles := [];
      originalData := [];
    }

    /** Reads the uploaded files (the bundled test data when nothing is uploaded).
        The file names are published before parsing starts, so a failed read
        leaves them updated and the data as it was. */
    method ReadFiles(uploaded: seq<UploadedFile>, testDatasets: seq<UploadedFile>)
      returns (result: Result<seq<Reading>, ReadError>)
      modifies this
      ensures var files := if |uploaded| == 0 then testDatasets else uploaded;
        selectedFiles == Names(files) && result == Consolidate(files)
      ensures result.Success? ==> originalData == result.value
      ensures result.Failure? ==> originalData == old(originalData)
    {
      var files := if |uploaded| == 0 then testDatasets else uploaded;
      var rows, names := LoadFiles(files);
      selectedFiles := names;
      var stamped := StampAll(DropDuplicates(rows));
      if stamped.Failure? {
        return Failure(stamped.error);
      }
      result := ConvertCounters(Survivors(SortByTime(stamped.value)));
      if result.Success? {
        originalData := result.value;
      }
    }
  }

  /** The loop over the files: their rows concatenated and their names listed. */
  method LoadFiles(files: seq<UploadedFile>) returns (rows: seq<RawRow>, names: seq<string>)
    ensures rows == Concat(files)
    ensures names == Names(files)
  {
    rows := [];
    names := [];
    for i := 0 to |files|
      invariant rows == Concat(files[..i])
      invariant names == Names(files[..i])
    {
      assert files[..i + 1][..i] == files[..i];
      rows := rows + files[i].rows;
      names := names + [files[i].name];
    }
    assert files[..|files|] == files;
  }

  /** The loop over the two counter columns; the first malformed column stops the read. */
  method ConvertCounters(kept: seq<Stamped>) returns (result: Result<seq<Reading>, ReadError>)
    ensures result == ConvertReadings(kept)
  {
    var columns: seq<seq<Option<real>>> := [];
    for c := 0 to |Counters|
      invariant |columns| == c
      invariant forall k :: 0 <= k < c ==> ConvertColumn(Cells(kept, Counters[k])) == Success(columns[k])
    {
      var column := ConvertColumn(Cells(kept, Counters[c]));
      if column.Failure? {
        return Failure(column.error);
      }
      columns := columns + [column.value];
    }
    return Success(Assemble(kept, columns[0], columns[1]));
  }

  predicate ReadingNotLater(a: Reading, b: Reading) {
    a.ts <= b.ts
  }

  /** A raw row that parses and survives both row-dropping steps. */
  predicate KeptRaw(row: RawRow) {
    Stamp(row).Some? && Kept(Stamp(row).value)
  }

  /** The reading one stamped row contributes on its own, if any. */
  function StampedReading(st: Stamped): Option<Reading> {
    if Kept(st) && !CellFails(st.consumption) && !CellFails(st.feed)
    then Some(Reading(st.ts, CellValue(st.consumption), CellValue(st.feed)))
    else None
  }

  /** The reading one raw row contributes on its own, if any. */
  function ReadingOf(row: RawRow): Option<Reading> {
    match Stamp(row)
    case None => None
    case Some(st) => StampedReading(st)
  }

  /** The consolidated data are in time order, from after the clock was set, with both counters. */
  lemma ConsolidatedInvariants(files: seq<UploadedFile>)
    ensures Consolidate(files).Success? ==>
      var rs := Consolidate(files).value;
      Ordered(rs, ReadingNotLater) &&
      forall i :: 0 <= i < |rs| ==>
        rs[i].ts >= SyncCutoff() && rs[i].consumption.Some? && rs[i].feed.Some?
  {
    if Consolidate(files).Success? {
      var unique, stamped, sorted, kept := Stages(files);
      var rs := Consolidate(files).value;
      FilterKeepsOrdered(sorted, HasTwoValues, NotLater);
      FilterKeepsOrdered(Filter(sorted, HasTwoValues), Synced, NotLater);
      forall i | 0 <= i < |rs|
        ensures rs[i].ts >= SyncCutoff() && rs[i].consumption.Some? && rs[i].feed.Some?
      {
        KeptReading(sorted, rs, i);
      }
      forall i, j | 0 <= i < j < |rs| ensures ReadingNotLater(rs[i], rs[j]) {
        KeptReading(sorted, rs, i);
        KeptReading(sorted, rs, j);
        assert NotLater(kept[i], kept[j]);
      }
    }
  }

  /** Every consolidated reading comes from a row of the files, and every
      surviving row of the files is among the consolidated readings. */
  lemma ConsolidatedContents(files: seq<UploadedFile>)
    ensures Consolidate(files).Success? ==>
      var rows := Concat(files);
      var rs := Consolidate(files).value;
      (forall x :: x in rs ==> exists i :: 0 <= i < |rows| && ReadingOf(rows[i]) == Some(x)) &&
      (forall i :: 0 <= i < |rows| && KeptRaw(rows[i]) ==>
        ReadingOf(rows[i]).Some? && ReadingOf(rows[i]).value in rs)
  {
    if Consolidate(files).Success? {
      var rows := Concat(files);
      var rs := Consolidate(files).value;
      var unique, stamped, sorted, kept := Stages(files);
      ReadingsHaveSources(stamped, sorted, rs);
      SourcesHaveReadings(stamped, sorted, rs);
      forall x | x in rs ensures exists i :: 0 <= i < |rows| && ReadingOf(rows[i]) == Some(x) {
        var j :| 0 <= j < |stamped| && StampedReading(stamped[j]) == Some(x);
        var i := SourceRow(rows, stamped, j);
      }
      forall i | 0 <= i < |rows| && KeptRaw(rows[i])
        ensures ReadingOf(rows[i]).Some? && ReadingOf(rows[i]).value in rs
      {
        var j := StampedRow(rows, stamped, i);
      }
    }
  }

  /** Every converted reading is the reading of some stamped row. */
  lemma ReadingsHaveSources(stamped: seq<Stamped>, sorted: seq<Stamped>, rs: seq<Reading>)
    requires multiset(sorted) == multiset(stamped)
    requires ConvertReadings(Survivors(sorted)) == Success(rs)
    ensures forall x :: x in rs ==> exists j :: 0 <= j < |stamped| && StampedReading(stamped[j]) == Some(x)
  {
    forall x | x in rs ensures exists j :: 0 <= j < |stamped| && StampedReading(stamped[j]) == Some(x) {
      var k :| 0 <= k < |rs| && rs[k] == x;
      KeptReading(sorted, rs, k);
      var st := Survivors(sorted)[k];
      assert st in multiset(stamped);
      var j :| 0 <= j < |stamped| && stamped[j] == st;
      assert StampedReading(stamped[j]) == Some(x);
    }
  }

  /** Every kept stamped row has its reading among the converted readings. */
  lemma SourcesHaveReadings(stamped: seq<Stamped>, sorted: seq<Stamped>, rs: seq<Reading>)
    requires multiset(sorted) == multiset(stamped)
    requires ConvertReadings(Survivors(sorted)) == Success(rs)
    ensures forall j :: 0 <= j < |stamped| && Kept(stamped[j]) ==>
      StampedReading(stamped[j]).Some? && StampedReading(stamped[j]).value in rs
  {
    forall j | 0 <= j < |stamped| && Kept(stamped[j])
      ensures StampedReading(stamped[j]).Some? && StampedReading(stamped[j]).value in rs
    {
      var st := stamped[j];
      assert st in multiset(sorted);
      SurvivorsMembership(sorted, st);
      var k :| 0 <= k < |Survivors(sorted)| && Survivors(sorted)[k] == st;
      KeptReading(sorted, rs, k);
      assert StampedReading(st) == Some(rs[k]);
    }
  }

  /** One reading per distinct surviving row of the files. */
  lemma ConsolidatedCount(files: seq<UploadedFile>)
    ensures Consolidate(files).Success? ==>
      |Consolidate(files).value| == |Filter(DropDuplicates(Concat(files)), KeptRaw)|
  {
    if Consolidate(files).Success? {
      var unique, stamped, sorted, kept := Stages(files);
      FilterTwice(sorted, HasTwoValues, Synced, Kept);
      FilterOfPermutation(sorted, stamped, Kept);
      KeptRowsCorrespond(unique, stamped);
      FilterMapped(unique, stamped, KeptRaw, Kept);
      var rs := Consolidate(files).value;
      KeptReading(sorted, rs, 0);
    }
  }

  /** The read fails on a timestamp exactly when some row's date and time do not parse. */
  lemma TimestampErrorIff(files: seq<UploadedFile>)
    ensures Consolidate(files) == Failure(MalformedTimestamp) <==>
      exists i :: 0 <= i < |Concat(files)| && Stamp(Concat(files)[i]).None?
  {
    var rows := Concat(files);
    StampAllOfUnique(rows);
    if StampAll(DropDuplicates(rows)).Success? {
      var unique, stamped, sorted, kept := Stages(files);
      ConvertReadingsError(kept);
      assert Consolidate(files) != Failure(MalformedTimestamp);
      assert forall i :: 0 <= i < |rows| ==> Stamp(rows[i]).Some?;
    } else {
      assert Consolidate(files) == Failure(MalformedTimestamp);
      assert !forall i :: 0 <= i < |rows| ==> Stamp(rows[i]).Some?;
    }
  }

  /** The read fails on a counter exactly when every row parses and some
      surviving row has a counter that is not a decimal. */
  lemma CounterErrorIff(files: seq<UploadedFile>)
    ensures Consolidate(files) == Failure(MalformedCounter) <==>
      var rows := Concat(files);
      (forall i :: 0 <= i < |rows| ==> Stamp(rows[i]).Some?) &&
      exists i :: 0 <= i < |rows| && MalformedRaw(rows[i])
  {
    var rows := Concat(files);
    StampAllOfUnique(rows);
    if StampAll(DropDuplicates(rows)).Success? {
      var unique, stamped, sorted, kept := Stages(files);
      StampedCounterError(stamped, sorted);
      assert MapAll(DropDuplicates(rows), Stamp) == Some(stamped);
      FailingRowLink(rows, stamped);
    }
  }

  /** A surviving row of the files has a malformed counter exactly when a kept stamped row does. */
  lemma FailingRowLink(rows: seq<RawRow>, stamped: seq<Stamped>)
    requires MapAll(DropDuplicates(rows), Stamp) == Some(stamped)
    ensures (exists i :: 0 <= i < |rows| && MalformedRaw(rows[i])) <==>
            (exists j :: 0 <= j < |stamped| && MalformedKept(stamped[j]))
  {
    MalformedRowsCorrespond(rows);
    MapAllExists(rows, Stamp, stamped, MalformedRaw, MalformedKept);
  }

  lemma MalformedRowsCorrespond(rows: seq<RawRow>)
    ensures forall i :: 0 <= i < |rows| && Stamp(rows[i]).Some? ==>
      (MalformedRaw(rows[i]) <==> MalformedKept(Stamp(rows[i]).value))
  {
    forall i | 0 <= i < |rows| && Stamp(rows[i]).Some?
      ensures MalformedRaw(rows[i]) <==> MalformedKept(Stamp(rows[i]).value)
    {
      StampCarriesCounters(rows[i], Stamp(rows[i]).value);
    }
  }

  predicate MalformedRaw(row: RawRow) {
    KeptRaw(row) && RowFails(row)
  }

  predicate MalformedKept(st: Stamped) {
    Kept(st) && CounterFails(st)
  }

  lemma StampCarriesCounters(row: RawRow, st: Stamped)
    requires Stamp(row) == Some(st)
    ensures KeptRaw(row) == Kept(st) && RowFails(row) == CounterFails(st)
  {
  }

  /** Conversion of the survivors fails exactly when some kept row has a malformed counter. */
  lemma StampedCounterError(stamped: seq<Stamped>, sorted: seq<Stamped>)
    requires multiset(sorted) == multiset(stamped)
    ensures ConvertReadings(Survivors(sorted)).Failure? ==> ConvertReadings(Survivors(sorted)).error == MalformedCounter
    ensures ConvertReadings(Survivors(sorted)).Failure? <==>
      exists j :: 0 <= j < |stamped| && MalformedKept(stamped[j])
  {
    var kept := Survivors(sorted);
    ConvertReadingsError(kept);
    if exists j :: 0 <= j < |stamped| && MalformedKept(stamped[j]) {
      var j :| 0 <= j < |stamped| && MalformedKept(stamped[j]);
      assert stamped[j] in multiset(sorted);
      SurvivorsMembership(sorted, stamped[j]);
      var k :| 0 <= k < |kept| && kept[k] == stamped[j];
    } else {
      forall k | 0 <= k < |kept| ensures !CellFails(kept[k].consumption) && !CellFails(kept[k].feed) {
        assert kept[k] in kept;
        SurvivorsMembership(sorted, kept[k]);
        assert kept[k] in multiset(stamped);
      }
    }
  }

  /** Timestamps parse for the distinct rows exactly when they parse for all rows. */
  lemma StampAllOfUnique(rows: seq<RawRow>)
    ensures StampAll(DropDuplicates(rows)).Success? <==> forall i :: 0 <= i < |rows| ==> Stamp(rows[i]).Some?
  {
    MapAllOfDistinct(rows, Stamp);
  }

  /** The row of the files a stamped row comes from. */
  lemma SourceRow(rows: seq<RawRow>, stamped: seq<Stamped>, j: int) returns (i: int)
    requires StampAll(DropDuplicates(rows)) == Success(stamped)
    requires 0 <= j < |stamped|
    ensures 0 <= i < |rows| && Stamp(rows[i]) == Some(stamped[j])
  {
    i := MapAllSource(rows, Stamp, stamped, j);
  }

  /** The stamped row a row of the files becomes. */
  lemma StampedRow(rows: seq<RawRow>, stamped: seq<Stamped>, i: int) returns (j: int)
    requires StampAll(DropDuplicates(rows)) == Success(stamped)
    requires 0 <= i < |rows|
    ensures 0 <= j < |stamped| && Stamp(rows[i]) == Some(stamped[j])
  {
    j := MapAllImage(rows, Stamp, stamped, i);
  }

  /** The intermediate tables of a read whose timestamps all parse. */
  lemma Stages(files: seq<UploadedFile>)
    returns (unique: seq<RawRow>, stamped: seq<Stamped>, sorted: seq<Stamped>, kept: seq<Stamped>)
    requires StampAll(DropDuplicates(Concat(files))).Success?
    ensures unique == DropDuplicates(Concat(files))
    ensures StampAll(unique) == Success(stamped)
    ensures sorted == SortByTime(stamped) && kept == Survivors(sorted)
    ensures Consolidate(files) == ConvertReadings(kept)
  {
    unique := DropDuplicates(Concat(files));
    stamped := StampAll(unique).value;
    sorted := SortByTime(stamped);
    kept := Survivors(sorted);
  }

  /** A row survives exactly when it is present and kept. */
  lemma SurvivorsMembership(sorted: seq<Stamped>, st: Stamped)
    ensures st in Survivors(sorted) <==> st in sorted && Kept(st)
  {
    FilterMember(sorted, HasTwoValues, st);
    FilterMember(Filter(sorted, HasTwoValues), Synced, st);
  }

  /** Position by position, a distinct row is kept exactly when its stamped row is. */
  lemma KeptRowsCorrespond(unique: seq<RawRow>, stamped: seq<Stamped>)
    requires StampAll(unique) == Success(stamped)
    ensures |unique| == |stamped|
    ensures forall i :: 0 <= i < |unique| ==> KeptRaw(unique[i]) == Kept(stamped[i])
  {
    StampAllSpec(unique);
  }

  /** The `k`-th reading converted from the kept rows of `sorted`. */
  lemma KeptReading(sorted: seq<Stamped>, rs: seq<Reading>, k: int)
    requires ConvertReadings(Survivors(sorted)) == Success(rs)
    ensures |rs| == |Survivors(sorted)|
    ensures 0 <= k < |rs| ==>
      var st := Survivors(sorted)[k];
      st in sorted && Kept(st) && !CellFails(st.consumption) && !CellFails(st.feed) &&
      rs[k] == Reading(st.ts, CellValue(st.consumption), CellValue(st.feed))
  {
    var kept := Survivors(sorted);
    var consumption := ConvertColumn(Cells(kept, Consumption));
    var feed := ConvertColumn(Cells(kept, Feed));
    ConvertColumnSpec(Cells(kept, Consumption));
    ConvertColumnSpec(Cells(kept, Feed));
    if 0 <= k < |rs| {
      SurvivorsMembership(sorted, kept[k]);
      assert Cells(kept, Consumption)[k] == kept[k].consumption;
      assert Cells(kept, Feed)[k] == kept[k].feed;
    }
  }

  /** Conversion fails exactly when some kept row has a malformed counter, and then on a counter. */
  lemma ConvertReadingsError(kept: seq<Stamped>)
    ensures ConvertReadings(kept).Failure? ==> ConvertReadings(kept).error == MalformedCounter
    ensures ConvertReadings(kept).Failure? <==>
      exists k :: 0 <= k < |kept| && CounterFails(kept[k])
  {
    ConvertColumnSpec(Cells(kept, Consumption));
    ConvertColumnSpec(Cells(kept, Feed));
    if exists k :: 0 <= k < |kept| && CounterFails(kept[k]) {
      var k :| 0 <= k < |kept| && CounterFails(kept[k]);
      assert Cells(kept, Consumption)[k] == kept[k].consumption;
      assert Cells(kept, Feed)[k] == kept[k].feed;
    } else {
      forall k | 0 <= k < |kept| ensures !CellFails(Cells(kept, Consumption)[k]) && !CellFails(Cells(kept, Feed)[k]) {
        assert Cells(kept, Consumption)[k] == kept[k].consumption;
      }
    }
  }

  lemma OrderedCons(x: Stamped, s: seq<Stamped>)
    requires Ordered(s, NotLater)
    requires |s| == 0 || x.ts <= s[0].ts
    ensures Ordered([x] + s, NotLater)
  {
    var r := [x] + s;
    forall i, j | 0 <= i < j < |r| ensures NotLater(r[i], r[j]) {
      if i > 0 {
        assert r[i] == s[i - 1] && r[j] == s[j - 1];
      } else {
        assert r[j] == s[j - 1];
        assert NotLater(s[0], s[j - 1]) || j - 1 == 0;
      }
    }
  }

  lemma OrderedSuffix(s: seq<Stamped>)
    requires Ordered(s, NotLater) && |s| > 0
    ensures Ordered(s[1..], NotLater)
  {
    forall i, j | 0 <= i < j < |s| - 1 ensures NotLater(s[1..][i], s[1..][j]) {
      assert s[1..][i] == s[i + 1] && s[1..][j] == s[j + 1];
    }
  }

  lemma OrderedConsMultiset(x: Stamped, t: seq<Stamped>, m: multiset<Stamped>)
    requires Ordered(t, NotLater)
    requires multiset(t) == m
    requires forall y :: y in m ==> x.ts <= y.ts
    ensures Ordered([x] + t, NotLater)
  {
    var r := [x] + t;
    forall i, j | 0 <= i < j < |r| ensures NotLater(r[i], r[j]) {
      assert r[j] == t[j - 1];
      if i > 0 {
        assert r[i] == t[i - 1];
      } else {
        assert t[j - 1] in multiset(t);
      }
    }
  }
}
