# thermoDashboard core, modelled in Dafny

thermoDashboard records temperature readings from sensors, serves charts of
them from a Flask application, and mails a user when a location is colder
than its sensor's warning level. This project models the three pieces of
logic that decide what the charts and the alert emails contain:

- **The cleaning pipeline** (`analysis.py`). A user's readings are pivoted
  into a time × location table. Duplicate cells are averaged, and times and
  locations are sorted. The table is then resampled onto a gap-free grid of
  fixed-width buckets, taking each bucket's median. The first missing cell
  of each gap is filled forward. Last, cells that lie more than 5 away from the rolling median of
  the forward-filled series are cleared.
- **The time-gated cache** (`app.py`). `Cache` is a one-slot memo whose key
  is the clock alone. It recomputes its table only when strictly more than
  its duration has passed since the last retrieval. It stamps the time
  before it runs the producer. The project also models the three producers
  behind the application's three cache instances, and the recent-temperature
  post-processing (`dropna`, then the one-minute `resample(...).last()`).
  The producers carry no contract of their own. What they return is stated
  through the cache. `App.FirstCallComputes` holds for any producer that
  takes a `lookback`. `App.ArgumentsIgnored` and `App.RefreshAfterDuration`
  run the plot and raw producers. `App.FailureKeepsOldTable` runs the
  recent-temperature producer, whose table `App.RecentFrame` states.
- **The alert decision** (`emails.py`). Over the last five minutes, each
  location gets two numbers:
  - a representative temperature: the median over timestamps of the
    bias-corrected values;
  - a threshold: the minimum over timestamps of the warning levels.

  A location is in warning when its representative is strictly below its
  threshold. A user with an address gets one email when at least one
  location is in warning, provided no earlier user's comparison raised: a
  raise ends the run for every later user (`Emails.Main`).

Times are integer seconds and temperatures are `real`. A table is a
sequence of rows of `Option<real>` cells, where `None` stands for pandas'
NaN. Each pandas operation the code relies on is written out as its own
function:
- `pivot_table` with its mean reducer and `dropna`;
- `resample` with `median` and `last`;
- `ffill` with and without `limit`;
- `rolling(5).median()`;
- masked assignment;
- `dropna`;
- the `median` and `min` column reductions;
- Series comparison and boolean selection.

Modules, one per file:
- `Wrappers`: `Option` and `Result`.
- `Order`: sorted, duplicate-free labels and Python's string order.
- `Stats`: sum, mean, min, sort and median.
- `Readings`: the joined database rows and the query filter.
- `Frames`: the pivot.
- `Resampling`.
- `Filling`: `ffill`.
- `Despiking`: line 27 of `analysis.py`, both as a function and in place on
  an `array2`.
- `Analysis`, `App` and `Emails`.

## Model

| member | source | states |
|---|---|---|
| Order.SortedDistinct | analysis.py:22 | the pivot's labels: strictly sorted, and holding exactly the elements of the input |
| Order.StringLessIsStrictTotalOrder | analysis.py:22 | the lexicographic order that sorts location names is a strict total order |
| Order.SortedByElements | emails.py:58 | two strictly sorted label sequences with the same elements are equal, so two Series from a pivot have identical labels exactly when they cover the same locations |
| Stats.MeanBounds | analysis.py:22 | the mean that collapses duplicate pivot cells lies between the least and greatest collapsed value |
| Stats.MinOf | emails.py:27 | the column minimum is one of the values and no greater than any of them |
| Stats.Sort | analysis.py:26 | sorting for the median gives a sorted sequence of the same length |
| Stats.SortPermutes | analysis.py:26 | that sorted sequence is a permutation of its input |
| Stats.MedianBounds | analysis.py:26 | a median lies between the least and greatest of its values |
| Stats.SumPermutation | analysis.py:22 | reordering values does not change their sum |
| Stats.MeanPermutation | analysis.py:22 | the mean that collapses duplicate pivot cells does not depend on the order of the values |
| Stats.SortedUnique | emails.py:26 | two sorted sequences holding the same values, each as often, are equal |
| Stats.MedianPermutation | emails.py:26 | a median depends only on the values and how often each occurs, not on their order |
| Stats.MedianOfMajority | analysis.py:27 | for an odd count, a value held by a strict majority is the median, whatever the other values are |
| Stats.MedianOfTwoReadings | emails.py:26 | the median of the readings 40 and 42 is 41 (the even case averages the two middle values) |
| Readings.Query | analysis.py:16-18 | every row the query keeps is in the database, recorded at or after the cut-off by a sensor of the given user, and every such row is kept |
| Readings.QueryCounts | analysis.py:16-18 | the query keeps each qualifying row as often as the database holds it, and no other row |
| Frames.ValuesAtCounts | analysis.py:22 | the values gathered for one (time, location) cell hold each value as often as an observation carries it there |
| Frames.Pivot | analysis.py:22 | the pivot is a valid table: the index is exactly the times that carry a value, the columns are exactly the locations that carry one, and both are sorted |
| Frames.PivotCell | analysis.py:22 | a cell is present iff some observation has a value at that time and location; the cell is their mean, so it stays within their range |
| Frames.PivotColumnsOccupied | analysis.py:22 | every pivot column holds at least one value |
| Frames.ColumnRowsExact | emails.py:26-27 | the present rows of a column are listed in increasing order, each once, and every present row is listed |
| Frames.ColumnValuesAtRows | emails.py:26-27 | a column reduction sees one value per present cell, in row order: the k-th value is the cell of the k-th present row |
| Frames.ColumnMembers | emails.py:26-27 | a value is reduced iff some row of the column holds it |
| Resampling.Grid | analysis.py:26 | the bucket starts are consecutive multiples of the cadence |
| Resampling.BucketRowsExact | analysis.py:26 | the rows of a bucket with a value in a column are listed in increasing order, each once, and every such row is listed |
| Resampling.BucketValuesAtRows | analysis.py:26 | a bucket gathers one value per row of the bucket that has one, in row order: the k-th value is the cell of the k-th such row |
| Resampling.BucketMembers | analysis.py:26 | a value occurs in a bucket iff some row of the bucket holds it in that column |
| Resampling.BucketLastIsLatest | app.py:54 | the `last` of a bucket is the value of the latest row of the bucket that has one in that column |
| Resampling.BucketPresence | analysis.py:26 | a bucket's reduction is present iff some row of the bucket has a value in that column |
| Resampling.BucketMedianBounds | analysis.py:26 | a bucket's median lies within the range of the column's values in the bucket |
| Resampling.Resample | analysis.py:26 | a valid table with the same columns, and empty iff its input is empty; the index runs without gaps, in steps of the cadence, from the bucket of the first time to the bucket of the last |
| Resampling.ResampleCovers | analysis.py:26 | every input row falls in the output row whose bucket contains its time |
| Resampling.ResampleCell | analysis.py:26 | a resampled cell is the reducer applied to the values of the bucket's rows that have one in that column, one per row, in row order |
| Resampling.ResamplePresence | analysis.py:26 | a resampled cell is present iff some input row of its bucket has a value in that column |
| Resampling.ResampleMedianBounds | analysis.py:26 | a bucket median lies within the range of the values it collapses |
| Resampling.ResampleLastIsLatest | app.py:54 | with `last`, a present cell is the value of the latest row of its bucket that has one in that column |
| Resampling.ResampleEmptyBucket | analysis.py:26 | a bucket that no row falls in becomes an all-missing row |
| Filling.LastSeen | analysis.py:26 | finds the latest present cell at or above a row, or reports that the column is missing all the way up |
| Filling.FillForward | analysis.py:26 | the fill keeps the table's shape and every present cell |
| Filling.FillIsLatest | analysis.py:26-27 | a filled cell holds the value of the latest present cell at or above it in its column, that cell is at most `limit` rows up, and no present cell lies between them |
| Filling.FillComesFromAbove | analysis.py:26-27 | every filled value is copied from a present cell at or above it in the same column |
| Filling.FillOnce | analysis.py:26 | with `limit=1`, a present cell is unchanged, a missing cell right below a present one takes its value, and the rest of a gap and any leading gap stay missing |
| Filling.FullFillLeavesLeadingGaps | analysis.py:27 | after an unlimited fill, a cell is missing iff its column has no value at or above it |
| Filling.LastSeenAfterFillOnce | analysis.py:26-27 | filling the first missing cell of each gap (`ffill(limit=1)`) does not change which value an unlimited fill later carries down |
| Filling.FullFillAfterFillOnce | analysis.py:26-27 | the unlimited fill of the table whose gaps had their first cell filled equals the unlimited fill of the resampled table |
| Filling.LastSeenColumnLocal | analysis.py:26-27 | what the fill does to a column depends on that column alone |
| Despiking.ClearSpikes | analysis.py:27 | the masked table keeps the row count and the column count |
| Despiking.OnlyClears | analysis.py:27 | the filter only clears: every cell keeps its value or becomes missing |
| Despiking.SpikeRule | analysis.py:27 | a present value is cleared iff its row has five forward-filled values in the window and the value is strictly more than 5 from their median |
| Despiking.EarlyRowsKept | analysis.py:27 | the first four rows are never cleared, because `rolling(5)` has no median there |
| Despiking.FilledInRange | analysis.py:27 | forward-filled values stay within the range of the column's values |
| Despiking.StableCellNoSpike | analysis.py:27 | in a column whose values all lie within a range of 5, no mask entry is set |
| Despiking.StableColumnKept | analysis.py:27 | a column whose values all lie within a range of 5 loses no cell |
| Despiking.FullFillColumnLocal | analysis.py:27 | the forward-filled column depends on that column alone |
| Despiking.SpikeAtColumnLocal | analysis.py:27 | the mask entry depends on the forward-filled column alone |
| Despiking.ColumnsIndependent | analysis.py:27 | columns are filtered independently |
| Despiking.NoGapFillIsIdentity | analysis.py:27 | forward-filling a gap-free column changes nothing |
| Despiking.GapFreeColumnRule | analysis.py:27 | on a gap-free column, row i (where i >= 4) is cleared iff it is strictly more than 5 from the median of itself and the four values above |
| Despiking.OutlierAgainstMajorityCleared | analysis.py:27 | a reading more than 5 from a value held by three of the five window cells is cleared |
| Despiking.CloseToMajorityKept | analysis.py:27 | a reading within 5 of a value held by three of the five window cells is kept |
| Despiking.SpikeInFullWindowCleared | analysis.py:27 | in 70, 70, 71, 70, 95, 70 the 95 is cleared and the 70 after it is kept |
| Despiking.EarlySpikeKept | analysis.py:27 | in 70, 70, 71, 95, 70, 70 nothing is cleared: the 95 sits in row 3, before the first full window |
| Despiking.Cells | analysis.py:27 | the array's cells, row by row, with the array's shape |
| Despiking.ApplyMask | analysis.py:27 | `df[mask] = NaN` in place: a masked cell becomes missing, and every other cell keeps its old value |
| Despiking.ClearSpikesInPlace | analysis.py:27 | the in-place filter leaves the array holding the masked table, with the mask computed before any cell changes |
| Analysis.Raw | analysis.py:20 | the long frame has one observation per selected row, and holds exactly the (time, location, raw value) of the selected rows |
| Analysis.RawRows | analysis.py:20 | the i-th observation is the time, location and raw value of the i-th selected row |
| Analysis.RawTimes | analysis.py:20-22 | a time carries a value in the long frame iff some selected row was recorded at it |
| Analysis.RawLocations | analysis.py:20-22 | a location carries a value in the long frame iff some selected row was recorded there |
| Analysis.RawCell | analysis.py:20-22 | a value sits in the long frame at a time and location iff a selected row recorded it there |
| Analysis.GetDataframe | analysis.py:11-23 | a valid table whose index and columns are exactly the times and locations of the user's readings in the last `hours` hours |
| Analysis.GetDataframeCell | analysis.py:16-22 | a cell is present iff a selected reading exists at that time and location, and it lies within the range of that location's readings |
| Analysis.ResampleAndFill | analysis.py:26 | the resampled and filled table is valid, with the pivot's columns and the resampled grid |
| Analysis.PlottingFrame | analysis.py:25-28 | the plotted table is valid and has the pivot's columns; it is empty iff the pivot is, and its index is a gap-free grid of multiples of the resolution |
| Analysis.PlottingCellOrigin | analysis.py:26-27 | a present plotted cell is its bucket's median or, when that bucket has none, the previous bucket's median carried one step |
| Analysis.PlottingRange | analysis.py:22-27 | when every selected reading of a location lies in [lo, hi], so does every value plotted for it |
| Analysis.GetPlottingDataframe | analysis.py:25-28 | the method that builds the table and clears spikes in place returns exactly the plotted table |
| App.Cache.constructor | app.py:12-19 | a new cache has the given duration, an empty slot, and a last retrieval 1000 days before its creation |
| App.Cache.Data | app.py:21-26 | when strictly more than the duration has passed, the stamp becomes now, and the slot takes the producer's table or, on failure, keeps its old value while the call raises; otherwise nothing changes and the stored slot is returned, whatever the arguments |
| App.CompleteRows | app.py:54 | lists, in increasing order, exactly the positions of the rows with a value in every column |
| App.DropIncomplete | app.py:54 | after `dropna()` every remaining row has a value in every column, and every such row of the input is kept |
| App.DropIncompleteOrigin | app.py:54 | each row `dropna()` keeps is an input row, with its time |
| App.RecentFrom | app.py:54 | `dropna()` followed by the one-minute `resample(...).last()` keeps the columns and gives a valid table on a gap-free grid of whole minutes |
| App.RecentFrame | app.py:52-55 | the recent-temperature table is valid, with the pivot's columns, on a gap-free one-minute grid |
| App.LastRowOf | app.py:54 | finds the last row whose time falls in a given minute, or reports that no row does |
| App.LastOfCompleteRows | app.py:54 | resampling complete rows with `last` gives, for each minute, either an all-missing row or the whole last row of that minute |
| App.RecentRowsAllOrNothing | app.py:53-54 | for any cleaned table, each minute after the post-processing is wholly missing or is the minute's last complete row |
| App.FirstCallComputes | app.py:18-25 | for any producer that takes a `lookback` and any duration shorter than 1000 days, the first call on a new cache runs the producer and returns its table, or raises when the producer fails |
| App.ArgumentsIgnored | app.py:21-26 | within the duration, and at exactly the duration, a second call with another `lookback` gets the table computed for the first call's arguments |
| App.RefreshAfterDuration | app.py:23-25 | once the duration has strictly passed, the next call recomputes with its own time and arguments |
| App.FailureKeepsOldTable | app.py:24-25 | a failing producer raises and still moves the stamp, so calls within the next 10 seconds return the table from before the failure |
| App.Instances | app.py:58-60 | the three application caches keep the raw and plot tables for 60 seconds and the recent-temperature table for 10, and start empty |
| Emails.Corrected | emails.py:17 | the corrected value is present iff the bias is, and corrected value plus bias equals the raw value |
| Emails.CorrectedObs | emails.py:17 | the long frame has one observation per selected row, and holds exactly the (time, location, corrected value) of the selected rows |
| Emails.CorrectedObsRows | emails.py:17 | the i-th observation is the time, location and corrected value of the i-th selected row |
| Emails.LevelObs | emails.py:17 | the long frame has one observation per selected row, and holds exactly the (time, location, warning level) of the selected rows |
| Emails.LevelObsRows | emails.py:17 | the i-th observation is the time, location and warning level of the i-th selected row |
| Emails.PivotOccupied | emails.py:26-27 | every column of a pivot holds a value, so the column median and minimum are defined |
| Emails.ColumnMedians | emails.py:26 | `.median(axis=0)` gives a well-formed Series labelled by the pivot's columns |
| Emails.ColumnMedianIs | emails.py:26 | each column's median is the median of its present cells, each counted once per row, in any order |
| Emails.ColumnMins | emails.py:27 | `.min(axis=0)` gives, per column, a present cell of the column that is no greater than any other |
| Emails.CheckTemps | emails.py:17-29 | both Series are well formed and labelled by their pivot's columns |
| Emails.TempLocations | emails.py:17-26 | a location has a temperature iff some reading of the last five minutes at that location comes from a sensor with a bias |
| Emails.LevelLocations | emails.py:17-27 | a location has a threshold iff some reading of the last five minutes at that location comes from a sensor with a warning level |
| Emails.RepresentativeIsMedian | emails.py:26 | a location's representative temperature is the median of its cells of the temperature pivot, one per timestamp with a corrected reading |
| Emails.RepresentativeBounds | emails.py:26 | the representative temperature lies within the range of the location's corrected readings |
| Emails.TempCellBounds | emails.py:17-26 | a temperature cell lies within the range of the location's corrected readings |
| Emails.PivotColumnMin | emails.py:27 | a pivot column's minimum is the least, over the times, of the mean of the values at that time |
| Emails.ThresholdIsLeastLevel | emails.py:27 | the threshold is the least, over the timestamps of the window, of the mean warning level reported there |
| Emails.BelowPositions | emails.py:58 | lists, in increasing order, exactly the positions where the temperature is strictly below the threshold |
| Emails.Pick | emails.py:58 | boolean selection keeps the chosen entries with their labels, in order |
| Emails.SelectWarnings | emails.py:58 | the comparison fails iff the labels differ; otherwise the selection holds, in label order, the label and temperature at each position where the temperature is strictly below the threshold |
| Emails.WarningsArePicked | emails.py:58 | a location is selected iff its temperature is strictly below its threshold |
| Emails.AlignedIffSameLocations | emails.py:58 | the comparison succeeds iff the same locations have a temperature and a threshold |
| Emails.RaisesIffLocationsDiffer | emails.py:17-58 | a user's run raises iff the user has an address and some location has a corrected temperature but no warning level, or the other way round |
| Emails.Decide | emails.py:56-59 | a user without an address gets nothing; an email goes to the user's own address only with a non-empty warning selection; no email means an empty selection; the decision raises iff the labels differ |
| Emails.FirstFailure | emails.py:55-58 | finds the first decision that raised, every earlier one having succeeded, or reports that none did |
| Emails.SentPositionsExact | emails.py:59 | those positions are listed in increasing order, each once, and every decision to send is listed |
| Emails.CollectUpTo | emails.py:55-61 | after visiting the first n decisions in order, the run is aborted iff one of them raised, and the emails sent are, in order, one per decision to send that comes before the first failure |
| Emails.Collect | emails.py:55-61 | the same for all the decisions: users are visited in order, a raise ends the run, and the emails sent are those decided before it, in order |
| Emails.CollectSendsEvery | emails.py:55-61 | when nothing raises, every decided email is sent |
| Emails.Main | emails.py:52-61 | users are visited in order; the run aborts iff some user's comparison raises; the emails sent are, in user order, one per user before the first raise whose decision is to send, each to that user's address with a non-empty warning list |
| Emails.MainSendsEveryAlert | emails.py:55-61 | when no comparison raises, the emails sent are exactly the decided ones |

## Behaviour that follows the code

Each point below is a consequence of the code that a reader might not
expect; the model follows the code.

- **Raw plotting values.** `get_dataframe` plots the raw `Temperature.value`
  (analysis.py:16-22). The calibration bias is applied only in the alert
  query (emails.py:17).
- **Averaged duplicates.** Duplicate readings at one (time, location) are
  collapsed by `pivot_table`'s default reducer. That reducer is the mean, not
  a median.
- **Early spikes are kept.** `rolling(5).median()` is NaN until five values
  are present, so the first four rows of a column are never cleared. In 70,
  70, 71, 95, 70, 70 the 95 stays (`Despiking.EarlySpikeKept`).
- **No refill after clearing.** Cleared cells are returned missing.
- **Failures are not retried.** The cache has no force-refresh input. A
  producer that raises still leaves the timestamp advanced, so the old table
  is served until the duration passes again.
- **A null bias gives a null value.** A NULL bias makes the corrected value
  NULL, so the reading is dropped from the temperature pivot. It is not
  treated as a bias of 0.
- **A threshold is a minimum of means.** The threshold is the minimum over
  timestamps of the per-timestamp mean warning level. It is not the minimum
  over sensors.
- **Unmatched locations abort the run.** A location with a temperature and
  no threshold, or the other way round, does not silently drop out. The
  comparison `temps < warn_lvl` of two differently labelled Series raises
  `ValueError`, which ends `main` for this and every later user
  (`Emails.RaisesIffLocationsDiffer`). This follows pandas 0.19 to 0.25:
  app.py:66-67 uses `.ix`, which pandas 1.0 removed, and from 0.19 on,
  comparing Series with different labels raises "Can only compare
  identically-labeled Series objects".
- **Long gaps are only partly filled.** `ffill(limit=1)` fills the first
  missing bucket of every gap. A gap of two or more buckets keeps its later
  buckets missing in the plotted table; only the unlimited `ffill()` that
  feeds the rolling median carries the value further (`Filling.FillOnce`,
  `Filling.FullFillAfterFillOnce`).

## Left out

- The Flask routes and chart construction in app.py are not modelled:
  `current_temp_chart`, `temp_history_chart`, `/raw`, `/test`, `/date` and
  the HTML rendering. They are presentation only.
- The SQL layer is not modelled. SQLAlchemy sessions, joins and
  `pd.read_sql` become a list of joined `Record` rows filtered by
  `Readings.Query`.
- A NULL raw `Temperature.value` is not modelled.
- Clocks are not modelled. `datetime.now()`, pytz and the local-timezone
  conversions become an integer `now` in seconds.
- Emails.Main: it takes one `now` and one database snapshot for all users.
  `check_temps` reads the clock and queries the database again for each
  user (emails.py:17-20), so readings that arrive during the run are not
  modelled.
- `Cache.data` reads the clock twice, once for the test (app.py:23) and once
  for the stamp (app.py:24). The model uses one `now` for both.
- Producer exceptions come only from an unreachable store (`App.Offline`).
  Other errors a producer might raise are not distinguished.
- `Cache._get_data` dispatches through subclasses. It is modelled as a
  function-valued field fixed at construction.
- `send_email` is not modelled: the SMTP session, the credentials and the
  `round(v, 2)` message text. `print` is not modelled either. The model
  stops at the decision of which emails go out. An SMTP exception inside
  `send_email` would also end `main`; `Emails.Main` states that the run
  aborts iff some comparison raises, which assumes `send_email` never
  raises.
- Emails.RaisesIffLocationsDiffer, Emails.Main: on pandas 0.18, two Series
  of the same length with different labels are compared by position and
  do not raise, and Series of different lengths raise a different error.
  The model follows 0.19 to 0.25, where any label mismatch raises.
- `record_time` values are taken to be whole seconds. Two readings of one
  location less than a second apart fall on one time in the model and
  become one pivot cell, their mean. pandas keeps them as two index rows,
  which can change a bucket median (analysis.py:26), a representative
  temperature (emails.py:26) and a threshold (emails.py:27, the minimum of
  the levels rather than of their mean).
- The `Sensor.warning_level is not None` filter at emails.py:21 is not
  modelled. It is a Python identity test on a column object, always true,
  so it filters nothing.
- Resample buckets are aligned to multiples of the cadence in seconds. The
  pandas origin at local midnight agrees with this for cadences of 10 and 60
  seconds.
- Floating-point rounding and NaN arithmetic are not modelled: values are
  reals and missing values are `None`.
- Frames.Pivot, Analysis.GetDataframe, Emails.Decide,
  Emails.RaisesIffLocationsDiffer, Emails.Main, App.RawProducer,
  App.PlotProducer, App.RecentProducer: a pivot with no value to aggregate
  (an empty query result, or a value column that is all NULL) is modelled
  as an empty table. pandas 0.19 to 0.25, which this code was written
  against, most likely raise `DataError: No numeric types to
  aggregate` instead. In that case `check_temps` raises, `main` stops for
  this and every later user, and the producers raise inside the cache. The
  model instead treats such a pivot as empty: a user with no reading in the
  window gets no email and the run goes on, and a producer returns an
  empty table.
- The caches are module-level objects shared by Flask's request threads,
  with no lock. The model calls them strictly one after another, so
  interleaved calls are not modelled.
- Emails.ColumnMedians: its contract states only the labels; the medians
  are stated by `Emails.ColumnMedianIs`.
- Emails.CheckTemps: its contract states the labels of both Series; their
  values are stated by `Emails.RepresentativeIsMedian`,
  `Emails.RepresentativeBounds` and `Emails.ThresholdIsLeastLevel`.
- Despiking.ClearSpikes: its contract states only the shape; the clearing
  rule is stated by `Despiking.SpikeRule` and `Despiking.OnlyClears`.
