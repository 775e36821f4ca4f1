# Green-taxi data pipeline: a Dafny model of its selection rules

The pipeline loads monthly green-taxi trip files into a PostgreSQL table,
exports a filtered slice of that table to a Parquet file, and prepares the
merged data for a tip-prediction regression. Almost everything it does is a
call into pandas, SQLAlchemy or scikit-learn. This project models the rules
the repository itself states, and proves what they guarantee:

- **Ingestion** (`src/getdata.py`). The month label is cut out of a file's
  base name with `split('-')[1].split('.')[0]`. Files are visited in sorted
  path order. A file's rows go into the `green_tripdata` table only when its
  label is one of the requested strings. A bad name or a failing file is
  skipped and the loop goes on. Module `Ingest`, on top of `Strings`
  (Python's `split`, `os.path.basename` and substring test) and `PathOrder`
  (Python's `sorted` on strings). The table is a class whose `rows` the
  loop appends to.
- **Export** (`src/filiter.py`). The fixed query is a WHERE clause evaluated
  in SQL's three-valued logic, followed by a 16-column projection. A query
  or write failure is logged, not raised. Module `Export`.
- **Training preparation** (`src/train.py`, lines 14-52). It covers the
  empty-frame short-circuit and the three derived columns, added in place
  to a row array. It also covers the month split into training and test
  rows, `dropna` over the thirteen model columns, and the categorical and
  numerical feature lists. `col not in TARGET` is kept as the substring
  test it is. Module `Train`.

Shared pieces: `Trips` (the trip record, its 21 file columns and the 3
derived ones, and a column lookup keyed by the `Column` datatype, with `Name` giving each column's spelling) and `Seqs` (order-preserving filter and
concatenation). Nullable columns are `Option`; amounts are exact rationals.

## Model

| member | source | states |
|---|---|---|
| `Strings.Split` | src/getdata.py:21 | `str.split` with one separator: one more piece than separators, and no piece contains the separator |
| `Strings.JoinSplit` | src/getdata.py:21 | joining the pieces of a split with the separator gives back the original string |
| `Strings.SplitJoin` | src/getdata.py:21 | splitting a join of separator-free pieces gives back those pieces (the other half of the round trip) |
| `Strings.SplitHead` | src/getdata.py:21 | the first piece is the text before the first separator; the remaining pieces are the split of the text after it |
| `Strings.Basename` | src/getdata.py:19 | no contract of its own; see `Strings.BasenameIsLastComponent` and `Strings.BasenameOfChild` |
| `Strings.BasenameIsLastComponent` | src/getdata.py:19 | `os.path.basename` holds no `/`, is a suffix of the path, and is the longest such suffix: it is the whole path or is preceded by a `/`; a path with no `/` is its own base name |
| `Strings.BasenameOfChild` | src/getdata.py:19 | the directory part of `dir/name` does not affect the base name |
| `Strings.Contains` | src/train.py:52 | no contract of its own; see `Strings.ContainsAtOffset` and `Strings.LongerNotContained` |
| `Strings.ContainsAtOffset` | src/train.py:52 | Python's `needle in hay` on strings holds exactly when `needle` occurs at some offset of `hay` |
| `Strings.LongerNotContained` | src/train.py:52 | a string longer than `hay` is never a substring of it |
| `PathOrder.LexLe` | src/getdata.py:14 | no contract of its own; see `PathOrder.LexLeTotal`, `PathOrder.LexLeTransitive` and `PathOrder.LexLeAntisymmetric` |
| `PathOrder.LexLeTotal` | src/getdata.py:14 | any two strings are comparable under Python's `<=` |
| `PathOrder.LexLeTransitive` | src/getdata.py:14 | Python's `<=` on strings is transitive |
| `PathOrder.LexLeAntisymmetric` | src/getdata.py:14 | two strings each `<=` the other are equal |
| `PathOrder.Insert` | src/getdata.py:14 | inserting a path adds exactly that path to the list, one copy |
| `PathOrder.InsertSorted` | src/getdata.py:14 | inserting into a sorted list keeps it sorted |
| `PathOrder.SortPaths` | src/getdata.py:14 | `sorted(...)` returns an ascending permutation of the matched paths |
| `PathOrder.SortedUnique` | src/getdata.py:14 | two ascending lists with the same elements are equal, so `sorted` has exactly one possible result |
| `PathOrder.SortPathsIgnoresInputOrder` | src/getdata.py:14 | the visiting order does not depend on the order in which the glob returned the paths |
| `Trips.TripColumn` | src/filiter.py:13-18 | a column lookup on a table row succeeds exactly for the 21 file columns |
| `Trips.NameInjective` | src/train.py:51-52 | distinct columns have distinct names, so the source's comparisons of column names are comparisons of columns |
| `Ingest.MonthLabel` | src/getdata.py:21 | no contract of its own; see `Ingest.MonthLabelBySearch`, `Ingest.MonthLabelMissingIff` and `Ingest.MonthLabelIsRunAfterFirstDash` |
| `Ingest.MonthLabelMissingIff` | src/getdata.py:21-30 | only a name with no `-` raises IndexError; `.split('.')[0]` never fails |
| `Ingest.MonthLabelBySearch` | src/getdata.py:21 | the label is the text after the first `-`, up to the next `-`, then cut at its first `.` |
| `Ingest.MonthLabelIsRunAfterFirstDash` | src/getdata.py:21 | the label is the run that starts right after the first `-`, holds no `-` or `.`, and ends at `-`, `.` or the end of the name |
| `Ingest.MonthLabelOfMonthlyFile` | src/getdata.py:21 | `<prefix>-<mm>.parquet` is labelled `<mm>`, e.g. `green_tripdata_2025-03.parquet` gives `03` |
| `Ingest.ImportedIff` | src/getdata.py:21-26 | a file is imported if and only if its base name has a `-`, its label is an element of `target_months`, and it reads and writes without an exception |
| `Ingest.Status` | src/getdata.py:19-32 | no contract of its own; see `Ingest.ImportedIff` and `Ingest.NoDashSkipped` |
| `Ingest.NoDashSkipped` | src/getdata.py:29-30 | a base name with no `-` gets the malformed-name status and adds no rows |
| `Ingest.MonthlyFileStatus` | src/getdata.py:19-32 | for `dir/<prefix>-<mm>.parquet` the outcome depends only on whether `mm` is listed and on how reading and writing go |
| `Ingest.UnpaddedLabelNotSelected` | src/getdata.py:22 | labels are compared as strings with no normalisation: `1` is not selected by `01` |
| `Ingest.Appended` | src/getdata.py:22-26 | no contract of its own; see `Ingest.AppendedMembership` |
| `Ingest.Ingested` | src/getdata.py:18-32 | no contract of its own; see `Ingest.IngestedConcat`, `Ingest.IngestedRowsComeFromImportedFiles` and `Ingest.IngestedLength` |
| `Ingest.Statuses` | src/getdata.py:18-32 | a run yields one status per visited file |
| `Ingest.IngestedConcat` | src/getdata.py:18-32 | each file contributes independently and in order, so a failure on one file does not stop the later files |
| `Ingest.AppendedMembership` | src/getdata.py:22-26 | a file adds a row if and only if it is imported and its frame holds the row |
| `Ingest.IngestedRowsComeFromImportedFiles` | src/getdata.py:22-26 | a row is added if and only if some imported file of the run holds it |
| `Ingest.IngestedLength` | src/getdata.py:26-28 | the table grows by exactly the row counts of the files with the imported status |
| `Ingest.RunStep` | src/getdata.py:18-32 | visiting one more file adds exactly that file's rows and its one status |
| `Ingest.Table.Append` | src/getdata.py:26 | `to_sql(..., if_exists='append')` puts the frame's rows after the existing rows and leaves those unchanged |
| `Ingest.ProcessFile` | src/getdata.py:19-32 | one pass of the loop body appends exactly the file's contribution and reports its status |
| `Ingest.IngestMonthlyData` | src/getdata.py:10-32 | the final table is the old table followed by the rows of each selected, readable file in sorted path order, with one status per file in the same order |
| `Export.Where` | src/filiter.py:19-24 | no contract of its own; see `Export.KeptIff` |
| `Export.Kept` | src/filiter.py:19-24 | no contract of its own; see `Export.KeptIff` and `Export.WhereIdempotent` |
| `Export.MeetsAllConditions` | src/filiter.py:19-24 | no contract of its own; see `Export.KeptIff`, `Export.QuerySound` and `Export.QueryComplete` |
| `Export.KeptIff` | src/filiter.py:19-24 | under three-valued logic, WHERE keeps a row if and only if payment type is 1, fare > 0, tip >= 0, distance > 0 and total > 0, all non-NULL |
| `Export.ExportColumnsShape` | src/filiter.py:13-18 | the SELECT list has 16 distinct table columns, and `payment_type` is not one of them |
| `Export.Project` | src/filiter.py:13-18 | every output row has one cell per SELECT column |
| `Export.Query` | src/filiter.py:12-25 | the result set is never longer than the table |
| `Export.ProjectedAmounts` | src/filiter.py:13-24 | a row meeting the five conditions projects to present amounts: distance, fare and total positive, tip non-negative |
| `Export.QuerySound` | src/filiter.py:19-24 | each result row is the projection of a table row that meets all five conditions; its fare, distance and total are > 0 and its tip is >= 0 |
| `Export.QueryComplete` | src/filiter.py:19-24 | each qualifying row appears as often as it occurs in the table and no other row appears, so the output count is the count of qualifying rows; the projection of every qualifying table row is in the output |
| `Export.KeptRowsPaidByCard` | src/filiter.py:20 | every kept row has payment type 1 |
| `Export.WhereIdempotent` | src/filiter.py:19-24 | applying the WHERE clause to its own result changes nothing |
| `Export.TransformAndExport` | src/filiter.py:28-41 | a file is written exactly when the query runs and the write succeeds; otherwise the error is logged and not raised |
| `Export.ExportOutcome` | src/filiter.py:28-41 | after a run the output file holds one 16-column row per qualifying table row, or is left as it was after a failure; a written file holds exactly the query result |
| `Train.MonthString` | src/train.py:38 | `strftime('%m')` always gives two characters |
| `Train.MonthStringRoundTrip` | src/train.py:38 | the month string reads back as its month, so it is zero-padded decimal and injective |
| `Train.MonthStringsAreTwelveLabels` | src/train.py:38 | month m gets the m-th of `01`..`12` |
| `Train.Derive` | src/train.py:36-38 | no contract of its own; see `Train.DerivedColumnsInRange` |
| `Train.WithDerivedColumns` | src/train.py:36-38 | adding the derived columns keeps the number of rows |
| `Train.DerivedColumnsInRange` | src/train.py:36-38 | after derivation, trip columns are unchanged; the hour lies in 0..23 and the month string reads back as the pickup month, both present exactly when the pickup time is |
| `Train.AddDerivedColumns` | src/train.py:36-38 | the in-place loop leaves the frame equal to the frame with its derived columns |
| `Train.FrameColumn` | src/train.py:43 | a frame column lookup fails only for a derived column the frame does not have yet |
| `Train.InMonths` | src/train.py:40-41 | no contract of its own; see `Train.SelectMonthsMembership` and `Train.UnlistedMonthExcluded` |
| `Train.SelectMonths` | src/train.py:40-41 | every selected row has its derived columns |
| `Train.SelectMonthsMembership` | src/train.py:40-41 | a row is in a subset if and only if it is in the frame and its month string is a listed month; a missing month is never listed |
| `Train.SplitDisjoint` | src/train.py:40-41 | disjoint month lists give disjoint training and test subsets |
| `Train.UnlistedMonthExcluded` | src/train.py:40-41 | a row whose month is in neither list, or missing, is in neither subset |
| `Train.DefaultSplitDisjoint` | src/train.py:99-100 | with the entry point's lists (01-04 and 05-06) the two subsets share no row |
| `Train.ModelRow` | src/train.py:43 | a sliced row has exactly the 13 columns `[*Features, TARGET]` |
| `Train.ModelMatrix` | src/train.py:43 | slicing keeps the number of rows |
| `Train.DropNa` | src/train.py:43-44 | no contract of its own; see `Train.DropNaKeepsCompleteRows` |
| `Train.ModelSet` | src/train.py:40-44 | no contract of its own; see `Train.ModelSetRows` |
| `Train.DropNaKeepsCompleteRows` | src/train.py:43-44 | `dropna` keeps only rows with no missing value, and every dropped row had at least one |
| `Train.ModelSetRows` | src/train.py:40-44 | every training or test row has the 13 model columns, none missing, and comes from a frame row of a listed month |
| `Train.IsNumerical` | src/train.py:52 | no contract of its own; see `Train.NumericalIff` and `Train.SubstringTestIsTargetTest` |
| `Train.NumericalFeatures` | src/train.py:52 | no contract of its own; see `Train.NumericalFeaturesMembership`, `Train.NumericalFeaturesOfModelColumns` and `Train.NumericalFeaturesListed` |
| `Train.NumericalFeaturesMembership` | src/train.py:52 | a column is numerical if and only if it is listed, not categorical, and its name is not a substring of `'tip_amount'` |
| `Train.NotContainedByChar` | src/train.py:52 | a name with a character that `'tip_amount'` lacks is not a substring of it |
| `Train.SubstringTestIsTargetTest` | src/train.py:52 | on this schema `name in 'tip_amount'` holds for the target's name and for no other column name |
| `Train.CategoricalByName` | src/train.py:51-52 | a column's name is among the categorical names if and only if the column is categorical |
| `Train.NumericalIff` | src/train.py:51-52 | a column passes the comprehension's test if and only if it is neither categorical nor the target |
| `Train.NumericalFeaturesOfModelColumns` | src/train.py:43-52 | over `[*Features, TARGET]` the comprehension returns exactly the non-categorical features, in feature order, without the target |
| `Train.NonCategoricalFeatures` | src/train.py:21-52 | the non-categorical features, in feature order, are exactly nine named columns |
| `Train.NumericalFeaturesListed` | src/train.py:43-52 | the comprehension returns `passenger_count`, `trip_distance`, `extra`, `mta_tax`, `tolls_amount`, `improvement_surcharge`, `congestion_surcharge`, `cbd_congestion_fee`, `trip_duration_minutes`, in that order |
| `Train.FeaturePartition` | src/train.py:21-52 | categorical and numerical features are disjoint, together they are the 12 features, and neither contains the target |
| `Train.Prepare` | src/train.py:40-52 | no contract of its own; see `Train.ModelSetRows`, `Train.FeaturePartition` and `Train.TrainTipPredictionModel` |
| `Train.TrainTipPredictionModel` | src/train.py:14-52 | an empty frame returns at once and is not changed; otherwise the frame gains its derived columns in place, and the split, `dropna` and feature lists are computed from it |

## Left out

- Fitting and evaluation (`src/train.py:54-79`): the scaler, one-hot encoder, column transformer, linear regression and the MSE/RMSE/R² metrics are floating-point numerics inside scikit-learn. `TrainTipPredictionModel` stops at the data handed to the fit.
- Model persistence (`src/train.py:81-83`), the printed messages and the logging in all three files.
- `Ingest.IngestMonthlyData`: the statuses abstract the log lines. The source logs nothing for a file whose label is not requested, one warning for a malformed name (`src/getdata.py:29`), and `Processing:` followed by a success or an error line for a file it attempts (`src/getdata.py:23`, `:27`, `:31`). The model gives every visited file one status, including the unrequested ones.
- `src/pipeline.py` (merging raw files) and `src/config.py` (environment variables, connection URL, engine). They are I/O plumbing; pipeline.py is not part of this model.
- All `main()` functions, argument parsing and engine disposal. The default month lists of `src/train.py:99-100` are kept as constants.
- File system and database: the glob result and what reading and appending each file gives are parameters of `IngestMonthlyData` (`matched`, `disk`). `read_sql`, `to_parquet`, `os.makedirs` and the preview print are not modelled; the query's failure and the write's failure are parameters of `TransformAndExport`.
- `Ingest.ProcessFile`: treats `to_sql` as all-or-nothing, so a failing file adds no rows. With `chunksize=10000`, a database that does not roll back would keep the chunks written before the failure.
- `Export.Query`: returns rows in table order. SQL gives no order without ORDER BY, so only the multiset of rows is promised by the source (`Export.QueryComplete` is order-free).
- `Export.ExportOutcome`: a failed write is modelled as leaving the previous file untouched. A write that fails part-way could leave a partial file.
- Timestamps are decoded records (month, hour, and a position in seconds). pandas datetime parsing, time zones and nanosecond precision are not modelled. The calendar relation between the position and the month and hour is not modelled.
- `trip_duration_minutes` is only the signed difference of the two positions divided by 60. It is kept as a column and nothing is proved about its value.
- `df.empty` also holds for a frame with rows but no columns. Frame rows here always carry the full trip schema, so only the zero-row case exists.
- A missing column raising KeyError cannot arise with a typed record. `FrameColumn` returns None for a derived column read before derivation, but the model never reads one.
- Column types: the id-like columns (`VendorID`, `RatecodeID`, `passenger_count`, `payment_type`, `trip_type`, location ids) are integers. The float-typed NaN-carrying form they take in Parquet is not modelled.
- The WHERE clause has five conditions; the SELECT list is not one of them. The training and test month lists are not required to be disjoint; disjointness of the subsets is proved only for disjoint lists (`Train.SplitDisjoint`) and for the entry point's lists.
