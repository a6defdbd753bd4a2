# DvLIR meter dashboard: the data pipeline

DvLIR is a Shiny dashboard for the CSV exports of a DvLIR electricity
meter reader. Each export row carries a UTC date and time, two cumulative
counters (consumption `1.8.0[kWh]` and feed-in `2.8.0[kWh]`, written with a
decimal comma) and three identification columns. This project models the
dashboard's data pipeline in `app.py` and proves what it computes:

- **Consolidation** (`read_files`). The rows of all uploaded files are
  concatenated, exact duplicate rows are dropped, and every row is stamped
  with the instant parsed from `Date[UTC]_Time[UTC]` (`%d.%m.%Y_%H:%M:%S`).
  The rows are then sorted by instant. Rows without both counters are
  dropped, and so are rows from before 1970-01-30, which come from a meter
  whose clock is not yet set. Finally the counter text is read as numbers
  after `,` becomes `.`. A malformed timestamp or counter fails the whole
  read; the model returns that as an error value.
- **Day/night analysis** (`show_dataframe`). The readings are resampled to
  hourly bins holding each counter's least reading; an hour without readings
  is still a bin. Bins are grouped by the running count of bins whose hour is
  one of the two slider hours. Each group becomes one row: its earliest
  instant and its least counters. The rows are differenced, the net balance
  (consumption minus feed) is added, and the date range is applied. The
  stored table keeps missing cells; the displayed one drops those rows.
- **Value boxes.** The total of each counter is its maximum less its
  minimum. The peak daily increase is the largest difference between the
  last readings of two consecutive calendar days.
- **Exact-hour selection.** The split Excel download writes a `Night_HH`
  sheet and a `Day_HH` sheet, each holding the rows whose clock reads that
  hour sharp. The plot's day/night choice selects rows the same way.

Representation:
- Instants are integer seconds since 1970-01-01 UTC.
- An instant's hour is `ts / 3600`, its hour of day `(ts / 3600) % 24`, its
  day `ts / 86400` and its time of day `ts % 86400`. Dafny's division is
  the floor division pandas uses for instants before 1970.
- Counters are exact `real`s; a missing cell (pandas `NaN`) is `None`.
- `dropna(thresh=2)` runs after the five text columns are gone, when only
  the two counters remain. It therefore keeps a row only when *both*
  counters are present, not when just one is.
- The slider goes up to 24, an hour no instant has. A slider value of 24
  opens no group and gives an empty sheet. For the plot, `at_time` with hour
  24 raises, which the model returns as a `Failure`.

Files:
- `wrappers.dfy`: `Option`/`Result`.
- `text.dfy`: digit strings and zero padding.
- `seqs.dfy`: filtering, duplicate removal and all-or-nothing mapping over
  sequences.
- `missing.dfy`: reductions that skip missing cells.
- `timestamps.dfy`: calendar arithmetic and the timestamp pattern.
- `counters.dfy`: counter text.
- `consolidation.dfy`: `read_files`.
- `aggregation.dfy`: `show_dataframe`.
- `metrics.dfy`: the value boxes.
- `export.dfy`: the split download and the plot's selection.

## Model

| member | source | states |
|---|---|---|
| Consolidation.Session.ReadFiles | app.py:207-253 | Uses the bundled test files when nothing is uploaded. Publishes the file names before parsing. The result is the consolidation of the files. The stored data change only on success; a failed read leaves them as they were. |
| Consolidation.LoadFiles | app.py:216-228 | The loop over the files yields their rows concatenated in order and their names in upload order. |
| Consolidation.Concat | app.py:218-221 | Every row of every file is in the concatenation, and every row of the concatenation comes from some file. |
| Seqs.DropDuplicatesDistinct | app.py:231 | After duplicate removal no two rows are identical. |
| Seqs.DropDuplicatesMembers | app.py:231 | Duplicate removal keeps exactly the rows of its input: each kept row was a row, and each row is kept. |
| Consolidation.StampAllSpec | app.py:234-235 | Stamping succeeds exactly when every row's date and time parse, and it stamps each row in place. |
| Timestamps.MatchPattern | app.py:235 | A match has day 1-31, month 1-12, hour 0-23, minute 0-59 and second 0-61, the ranges of the pattern's fields. The day may be one or two digits, or a space and a digit as strptime allows. |
| Timestamps.ParseTimestamp | app.py:235 | A parsed instant lies within the range of a pandas `Timestamp`. |
| Timestamps.ParseFormatted | app.py:234-235 | Round trip: the date and time text the meter writes for a valid instant (years 1678-2261) parses back to that instant. |
| Timestamps.ParseExample | app.py:234-235 | `01.01.2024` with `08:00:00` is 2024-01-01 08:00:00 UTC (1704096000). |
| Timestamps.SpacedDayParses | app.py:234-235 | A day written as a space and a digit (` 1.`) reads as the same day written with a leading zero (`01.`), whatever follows. |
| Timestamps.ParseSpacedDay | app.py:234-235 | ` 1.01.2024` with `08:00:00` is 2024-01-01 08:00:00 UTC as well. |
| Timestamps.ClockOfEpochSeconds | app.py:274 | The parsed instant's day, time of day and hour of day are the date's and clock's own fields. |
| Consolidation.SortByTime | app.py:239 | The sorted rows are in non-decreasing order of instant and are a permutation of the input. |
| Consolidation.ConvertColumnSpec | app.py:248-249 | Converting a column succeeds exactly when no present cell is malformed, and it reads every cell in place. |
| Consolidation.ConvertCounters | app.py:248-249 | The loop over the two counter columns yields the readings, or the first column's error. |
| CounterText.CommaDecimal | app.py:249 | `whole,frac` reads as whole + frac / 10^len(frac). |
| CounterText.CounterExample | app.py:249 | `100,5` reads as 100.5 and `50,0` as 50.0. |
| CounterText.TwoCommasRejected | app.py:249 | Text with two commas is not a number, so the read fails. |
| Consolidation.ConsolidatedInvariants | app.py:237-245 | The data are in non-decreasing time order. No reading precedes 1970-01-30. Every reading has both counters. |
| Consolidation.ConsolidatedContents | app.py:218-249 | Every reading comes from a row of the files. Every row of the files that parses and survives both filters is among the readings. |
| Consolidation.ConsolidatedCount | app.py:231-245 | There is one reading per distinct raw row that survives. |
| Consolidation.TimestampErrorIff | app.py:234-235 | The read fails on a timestamp exactly when some row's date and time do not parse. |
| Consolidation.CounterErrorIff | app.py:241-249 | The read fails on a counter exactly when every timestamp parses and some surviving row has a malformed counter. |
| Missing.MinOf | app.py:273 | `min()` is missing exactly when every cell is. Otherwise it is a present cell no greater than any other present cell. |
| Missing.MaxOf | app.py:165 | `max()` is missing exactly when every cell is. Otherwise it is a present cell no less than any other present cell. |
| Missing.LastOf | app.py:177 | `last()` is missing exactly when every cell is. Otherwise it is the last present cell: a cell with only missing cells after it. |
| Aggregation.HourBinMinimum | app.py:273 | An hour's bin is labelled with that hour. Each counter holds the least reading taken in that hour, missing exactly when the hour has none. |
| Aggregation.HourlyBinsAligned | app.py:273 | The bins are whole hours, each the bin of its own hour, one hour apart, in strictly increasing order. The first bin is the earliest reading's hour. |
| Aggregation.HourlyBinsCover | app.py:273 | Every reading's hour has a bin. The bins run from the earliest reading's hour to the latest one's. |
| Aggregation.TagCounts | app.py:274 | Each bin keeps its place. Its group id is the number of slider-hour bins up to and including it. |
| Aggregation.GroupSteps | app.py:274 | The group id starts at 1 or 0 depending on whether the first bin is at a slider hour. It then rises by one exactly at each slider-hour bin. |
| Aggregation.GroupsNonDecreasing | app.py:274 | Group ids never decrease along the bins. |
| Aggregation.NoMarkerHours | app.py:274 | When neither slider value is an hour of the day (the slider's 24), every bin is in group 0. |
| Aggregation.GroupMinIncreasing | app.py:276 | The grouped rows carry strictly increasing group ids. |
| Aggregation.GroupMinCovers | app.py:276 | Every group id that occurs has a grouped row. |
| Aggregation.GroupMinRows | app.py:276 | Each grouped row is the `agg(min)` row of all bins of its group: the earliest instant and the least counters. |
| Aggregation.GroupMinAscending | app.py:276 | The grouped rows are in time order. |
| Aggregation.GroupMinOpens | app.py:276 | Each grouped row carries the instant and the id of the bin that opens its group. |
| Aggregation.GroupedAtMarkers | app.py:274-276 | A grouped row starts at a slider hour exactly when its group is not 0. Group 0 starts at the first bin. |
| Aggregation.DeltaPresence | app.py:277-281 | The first row's changes are missing. A later row's change is present exactly when its group minimum and the previous group's are, and then equals the one less the other. Net is present exactly when both changes are, and then equals consumption minus feed. |
| Aggregation.DeltasTelescope | app.py:277 | Over a run of present changes, the changes sum to the difference of the group minima at its ends. |
| Aggregation.ShowDataframeRange | app.py:283-289 | The stored table is exactly the rows within the date range, both ends included. The displayed table is exactly the stored rows without a missing cell. |
| Aggregation.ShowDataframeOrdered | app.py:276-289 | The stored and displayed tables are in strictly increasing time order. |
| Aggregation.ShowDataframeHours | app.py:273-278 | Every row starts on a whole hour: a slider hour or the earliest reading's hour. |
| Metrics.TotalSpread | app.py:163-172 | The total is missing exactly when the counter has no reading. Otherwise it is the largest difference between two readings, attained by a pair, and never negative. |
| Metrics.DayLastMeaning | app.py:177 | A day's bin is the last reading of that day that has the counter, missing exactly when no reading of the day has it. |
| Metrics.MaxOfDiff | app.py:178-179 | The maximum of `diff()` is the greatest change between consecutive present entries. It is missing exactly when no two consecutive entries are both present. |
| Metrics.PeakDailyMeaning | app.py:174-192 | The peak daily increase is the greatest change between the last readings of two consecutive days, missing when no such pair exists. |
| Metrics.PeakWithinTotal | app.py:163-192 | A peak daily increase never exceeds the total of the same counter. |
| Export.ClockAtHour | app.py:426 | An instant's `%H:%M:%S` text equals `{t:02}:00:00` exactly when t is 0-23 and the instant is at t o'clock sharp. |
| Export.MultiSheetExport | app.py:414-432 | The loop always yields two sheets, `Night_{t0:02}` then `Day_{t1:02}`. Each holds the table's rows at its hour, in table order. |
| Export.SheetRowsMeaning | app.py:425-426 | A row is on the sheet of hour t exactly when it is a row of the table at t o'clock sharp; for 24 the sheet is empty. |
| Export.SheetIsAtTime | app.py:426 | For hours 0-23, the text comparison selects exactly the rows `at_time` selects. |
| Export.SheetNamesDiffer | app.py:423 | The two sheet names never clash. |
| Export.TableRowsExported | app.py:421-429 | Every analysis row lands on the night or the day sheet, except the row of the first hour's group. |
| Export.PlotSelectionMeaning | app.py:325-332 | The row selection fails exactly when one period alone is chosen at hour 24. Otherwise it draws all rows for both periods, the rows at the chosen hour for one, and none for neither. |
| Export.PlotMatchesSheet | app.py:325-332 | With one period chosen at an hour 0-23, the plot shows exactly that period's sheet. |

## Left out

- Reading the CSV files (`pd.read_csv`): a file is given as its rows of text cells. Type inference is not modelled; every cell is text, and date and time cells are present.
- Writing Excel and CSV (`to_excel`, `to_csv`, the in-memory buffer): the model stops at the sheet names and their rows.
- The choice between the raw and the calculated table, and between the download formats, in `download_table`. This is UI wiring; the sheet model takes any table and its instant column.
- `DateTime.astype(str)` on the exported sheets: this is display formatting of the instant.
- `create_excel_file`: it is never called.
- The Shiny layout, reactivity, `update_daterange`, `reset_plot_params`, the global flags and the file names built from the wall clock. These are UI glue and clock input.
- Plot rendering and the y-axis range logic: this is matplotlib drawing over floating-point limits.
- The `.4g`/`.3g` formatting of the value boxes.
- Floating point: counters are exact reals, so the counter parse yields the decimal's exact value and no rounding.
- Consolidation.SortByTime: pandas' default sort is not stable. The model sorts stably, which is one of the orders pandas may produce; the proved properties hold for every order.
- Timestamps.ParseTimestamp: seconds 60 and 61 match the pattern but are refused, as Python's `datetime` refuses them. Whether pandas' own parser raises there too is not settled here.
- Consolidation.TimestampErrorIff: its "exactly when" is over the grammar above. A time with second 60 or 61 therefore counts as a failure.
- CounterText.ParseDecimal: reads only plain decimal text (sign, digits, optional point and digits). Python's `float` also reads text with surrounding whitespace, an exponent (`1e3`), digit underscores (`1_000`), `inf` and `nan`. The model treats those as malformed.
- Consolidation.CounterErrorIff: its "malformed" includes the texts just listed. For them, the read in the model fails where the program reads a number.
- Plotting an empty selection: with neither period chosen, or no curve chosen, pandas raises when asked to plot. The model covers the row selection, not the plot call.
- The date range: `start` and `end` are instants. A calendar date chosen in the UI stands for its midnight.
- Aggregation.GroupMinRows, Aggregation.GroupedAtMarkers, Aggregation.GroupMinOpens: these assume the bins are in time order with non-decreasing ids, which `HourlyBinsAligned` and `GroupsNonDecreasing` prove for the bins the pipeline builds.
