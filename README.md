# Roadsafe AI in Dafny: the table bookkeeping around the clustering

Roadsafe AI is a Django dashboard of road accidents in India. Its accident data sits
in CSV files: `all_india.csv`, one file per state, and one file per district. A
submission form appends new reports to those files. A DBSCAN model, refitted after
every submission, marks accident hotspots on the district page. Offline scripts
build the data files. They merge the raw accident, vehicle and casualty tables,
clean and decode them, and split them by state and district.

The clustering is scikit-learn's and the geography is geopandas'. What the
repository itself decides is the table bookkeeping around those calls, and this
project models that part and proves properties of it:

- which rows each step keeps;
- which columns it produces, and in what order;
- which files it writes, and what they then hold;
- when it fails.

The model is organised in these modules:

- `Tables`: pandas tables. A header is a sequence of names and a row is a sequence of
  optional cells, both matched by position. The module holds row filters (a `Test`
  datatype read by `Holds`), column conversions, selection, renaming, `unique()` and
  group keys, with their lemmas. Among them are filter composition,
  inclusion–exclusion, partition sums and `Distinct`.
- `Frames`: the `Frame` class, a DataFrame changed in place. Its methods are
  `dropna(inplace=True)`, `df[c] = ...` and `rename(inplace=True)`, each stated as
  a function of the old table.
- `Strings`: Python's `str.replace`, `endswith` and `strip`, string order and
  `sorted`.
- `Storage`: the data directory as a map from paths to tables. It covers
  `load_data` and `to_csv(mode='a', header=False)`.
- `Clustering`: the clusterer as a parameter, the labels it gives, and the
  `n_clusters`/`n_noise` statistics.
- `Submission`: `submit_page` on a POST, as the function `Respond`. The `Dashboard`
  class runs the same steps in place on the files and the saved model.
- `Views`: `district_page` and `state_page`.
- `Listing`: the `.csv` listing rule of `states_processor` and of the views.
- `CleanPrepare`, `TrainModel`, `MergeInspect`, `RowCount`, `SplitState`,
  `DistrictFiles`, `StateShapes`: the offline scripts, one module each.

I/O and foreign code are parameters throughout:

- The parsers are functions passed in: `float()`/`to_numeric` on text, day-first
  `to_datetime`, and the text of a float under `astype(str)`.
- The clusterer is a function `(Params, points, i) -> label`. It stands for the
  scaler followed by DBSCAN's `fit_predict`.
- The per-group `mean` of `merge_and_inspect.py` is a function passed in.
- The spatial join of `map_states_shapefile.py` is a function `Table -> Table`.
- Directory listings are an `Option<seq<string>>`, where `None` means the directory
  does not exist.
- The data directory is a map from path to table.
- A script that crashes part-way through its loop returns the outcome together with
  the files written up to that point.

## Model

| member | source | states |
|---|---|---|
| Storage.LoadData | analyzer/views.py:22-27 | A missing file gives `None` (NotFound). A file with no bytes is an error the function does not catch. Otherwise the result is the file's table. |
| Storage.HeaderFrom | analyzer/views.py:328-330 | A record read back as a header gives one name per field: a missing value becomes `Unnamed: k` after its position, and any other field its text. |
| Storage.Append | analyzer/views.py:328-330 | Appending without a header to a file that has one adds the line as its last row. A missing or blank file becomes a file whose only line is the header read from the record, with no rows. No other file changes. |
| Storage.AppendedRowReads | analyzer/views.py:328-330 | The appended row reads back, column by column, as the record matched by position against the file's own header. |
| Submission.Truncate | analyzer/views.py:299 | `int(x)` truncates toward zero, for both signs. |
| Submission.FloatOf | analyzer/views.py:298-299 | `float(...)` of a value read from a CSV: a missing cell is NaN, and a number is itself. |
| Submission.LastIndexCell | analyzer/views.py:297-298 | The `Accident_Index` of the last row. It is absent exactly when the file is missing, lacks the column, or has no rows. |
| Submission.NextIndex | analyzer/views.py:296-301 | For a finite last value x the next index is `int(x) + 1`. It is 1 when the file, column or row is missing, when the value is NaN, or when `float(...)` cannot parse it. An infinite value is the uncaught `OverflowError`, and nothing else is. |
| Submission.BuildRecord | analyzer/views.py:288-323 | The record exists iff all four `float(...)` calls succeed. It then has the 13 master columns: the index first, then each column filled from its form field, with numbers for the four numeric fields. |
| Submission.MasterRecordReads | analyzer/views.py:289-293 | The master header names each column once, so a record in master order reads back by name. |
| Submission.Stored | analyzer/views.py:326-330 | The three appends touch exactly the district, state and all-India files, taken as three different files. Each gets the record as its last row, or as its header when it was missing or blank. Every other file is unchanged. |
| Submission.Respond | analyzer/views.py:244-343 | When building the dropdown lists raises, the view fails and changes nothing. A form with a missing or empty field goes back to the form and changes nothing. A non-numeric coordinate or count changes nothing. An accepted report is appended to the three files. It then reaches the dashboard iff the reloaded master has both coordinate columns and no infinite coordinate among its complete pairs; otherwise it fails after the appends. The model is refitted with `eps=0.5, min_samples=5` exactly when the reloaded master has a complete coordinate pair. |
| Submission.Dashboard.Submit | analyzer/views.py:270-343 | The method updates the files and model in place, and its result equals `Respond` on the old state. |
| Submission.IndexesFollowOneAnother | analyzer/views.py:296-301 | After an accepted report (master with the index column first), the next report gets the following index. |
| Submission.LastRowNotLargest | analyzer/views.py:298-299 | The index follows the last row, not the largest: after indexes 7 and then 3, the next is 4. |
| Submission.IndexTruncatesTowardZero | analyzer/views.py:299 | After the index -2.5 comes -1. |
| Submission.FirstReportBecomesHeader | analyzer/views.py:328-330 | When `all_india.csv` did not exist, the first report reads back as its header, with no rows. |
| Clustering.Labels | analyzer/views.py:221-225 | One label per point, in point order. |
| Clustering.Train | analyzer/views.py:336-339 | A fitted model keeps its parameters and one label per training point. |
| Clustering.Points | analyzer/views.py:219 | The (latitude, longitude) pair of every row, in row order. |
| Clustering.LabelCells | analyzer/scripts/train_cluster_model.py:40 | Labels become integer cells, one per label. |
| Clustering.NClusters | analyzer/scripts/train_cluster_model.py:52 | `n_clusters` is the number of distinct labels other than -1. |
| Clustering.NNoise | analyzer/scripts/train_cluster_model.py:53 | `n_noise` is at most the number of labels, and 0 iff -1 is not a label. |
| Clustering.SummaryBound | analyzer/scripts/train_cluster_model.py:52-53 | `n_clusters + n_noise` never exceeds the number of points. |
| Clustering.LastLabel | analyzer/scripts/train_cluster_model.py:52-53 | One more label adds one noise point, or at most one cluster. |
| Clustering.NoNoiseCountsLabels | analyzer/scripts/train_cluster_model.py:52-53 | With no noise, `n_clusters` is the number of distinct labels. |
| Clustering.SummaryExample | analyzer/scripts/train_cluster_model.py:52-53 | On the labels [0, -1, 1, 0, -1] there are two clusters and two noise points. |
| Views.Or | analyzer/views.py:173 | Python's `a or b`: `a` unless it is None or empty. |
| Views.Located | analyzer/views.py:202-206 | After `to_numeric` and `dropna`, exactly the rows whose two coordinates convert survive, in order. Their coordinates are converted and are not NaN, and every other field is unchanged. |
| Views.LocatedRows | analyzer/views.py:202-206 | Converting then dropping equals filtering by "both coordinates numeric" and then converting. |
| Views.ClusterLabels | analyzer/views.py:214-227 | One label per surviving row. All are 0 when no model is saved or there are no rows; otherwise they come from refitting the saved model's parameters on the rows. |
| Views.HotspotView | analyzer/views.py:195-240 | A missing or empty file shows no data, and an unreadable one fails. A readable, non-empty file shows hotspots iff it has latitude, longitude, Date, Time, Accident_Severity, Road_Type and Weather_Conditions, and neither Time nor Road_Type is all-missing among the surviving rows. On success `total_accidents` is the number of rows with numeric coordinates. `cluster` holds one label per row, and every other field is as it was after the drop. |
| Views.LabelledFails | analyzer/views.py:229-240 | After `cluster` is attached, the page raises iff a column it reads is missing or Time or Road_Type has rows but no value. |
| Views.DistrictPage | analyzer/views.py:162-242 | The states and districts dropdowns come from the listing rule, and the selections are `state_name or GET[...]`. Data loads only when both are set, and the hotspot view is that of the selected district's file. |
| Views.FindHotspots | analyzer/views.py:199-240 | The in-place steps (converting, dropping, assigning `cluster`) give the same result as `HotspotView`. |
| Views.FallbackLabelsAreZero | analyzer/views.py:216-227 | With no saved model, every hotspot row is labelled 0. |
| Views.StateTable | analyzer/views.py:98-102 | The conversions keep every row and column. `District` becomes the `astype(str)` text of what it held. |
| Views.StateTableCells | analyzer/views.py:98-102 | In every row, `Latitude` and `Longitude` hold `to_numeric(errors='coerce')` of their old cell, `Date` holds `to_datetime(errors='coerce')` of its old cell, `District` holds its `astype(str)` text, and every other field is unchanged. |
| Views.DistrictNames | analyzer/views.py:102 | The `astype(str)` text of every row's District, in row order. |
| Views.AvailableDistricts | analyzer/views.py:106 | The dropdown is sorted, has no duplicate, and holds exactly the district texts of the file. |
| Views.DistrictFilter | analyzer/views.py:109-117 | An empty filter keeps the table as it is. Otherwise it keeps exactly the rows whose District equals the filter, in order. |
| Views.StatePageView | analyzer/views.py:88-160 | A missing file is `Http404`. The page is shown iff the file is readable and has latitude, longitude, Date, District, Accident_Severity and Weather_Conditions, plus Road_Type when a district is selected. It then shows the district filter of the converted table and lists the sorted distinct districts. With no filter it shows every row; with a filter it shows as many rows as the file has with that District text, all with that District. |
| Views.FilterCountsShown | analyzer/views.py:102-113 | Filtering the converted table counts the rows whose District reads as the filter text. |
| Views.StatePage | analyzer/views.py:88-117 | The in-place conversions of `df_full` give the same result as `StatePageView`. |
| Listing.Stems | analyzer/context_processors.py:14 | Only entries ending in ".csv" contribute, each as `replace('.csv', '')`, and nothing else is a result. |
| Listing.StemsOnePerCsv | analyzer/context_processors.py:14 | There is one name per ".csv" entry, with no de-duplication. |
| Listing.CsvNames | analyzer/context_processors.py:12-17 | A missing directory gives []. Otherwise the result is sorted and is a permutation of the names. |
| Listing.StatesProcessor | analyzer/context_processors.py:4-19 | The context has exactly the key `all_states`. Its value is sorted, [] for a missing directory, and as long as the number of ".csv" entries. It holds exactly the stripped names. |
| Listing.CsvSuffixDropped | analyzer/context_processors.py:14 | For a name with no ".csv" inside, the rule just drops the extension. |
| Listing.EveryOccurrenceRemoved | analyzer/context_processors.py:14 | `replace` removes every ".csv": "a.csv.csv" gives "a". |
| Listing.SameNameListedTwice | analyzer/context_processors.py:14 | "a.csv" and "a.csv.csv" are both listed as "a". |
| Strings.Sort | analyzer/context_processors.py:14 | `sorted` returns a sorted permutation. |
| Strings.SortedUnique | analyzer/context_processors.py:14 | A sorted permutation is unique, so the result does not depend on the sorting algorithm. |
| Strings.Replace | analyzer/scripts/split_by_state.py:28 | A replacement as long as the pattern keeps the length of the string. |
| Strings.ReplaceChar | analyzer/scripts/split_by_state.py:28 | Replacing one character by another changes exactly that character and keeps the length. |
| Strings.ReplaceAbsent | analyzer/scripts/split_by_state.py:28 | Replacing a pattern that does not occur changes nothing. |
| Strings.Strip | analyzer/scripts/save_district_csvs.py:21-22 | The result is no longer than the input and neither starts nor ends with whitespace. |
| Strings.StripFacts | analyzer/scripts/save_district_csvs.py:21-22 | `strip()` leaves a middle piece of the input that neither starts nor ends with whitespace. |
| Strings.LStripFacts | analyzer/scripts/save_district_csvs.py:21-22 | `lstrip` removes the leading whitespace and nothing else. |
| Strings.RStripFacts | analyzer/scripts/save_district_csvs.py:21-22 | `rstrip` removes the trailing whitespace and nothing else. |
| Tables.GetReads | analyzer/views.py:298 | `df[c]` of one row reads the field under the first column named c. It is missing when no column has that name or the line is shorter than that position. |
| Tables.Fit | analyzer/views.py:332 | A line read under a header of n names has exactly n fields: its own fields up to n, and missing ones past its end. |
| Tables.ToNumeric | analyzer/views.py:98-99 | `to_numeric(errors='coerce')` leaves an empty field empty and turns every other field into a number; unparseable text becomes NaN. |
| Tables.AsText | analyzer/views.py:102 | `astype(str)` turns a missing cell into "nan", keeps text as it is and gives a number's `str`. |
| Tables.WholeNumber | analyzer/ml/clean_and_prepare.py:74-77 | A cell is the dictionary key n exactly when it holds the finite number n. |
| Tables.Convert | analyzer/ml/clean_and_prepare.py:30-77 | What each column conversion gives. `to_numeric` keeps exactly the empty fields empty and yields numbers. `to_datetime` yields missing (NaT) for a missing input, and timestamps otherwise. `astype(str)` never leaves a missing cell. `map` yields a label of its dictionary or missing. |
| Tables.Filter | analyzer/scripts/row_count.py:23 | Boolean indexing never returns more rows than it was given. |
| Tables.FilterMembers | analyzer/scripts/row_count.py:23 | A row is in the result iff it is an input row that passes the test. |
| Tables.FilterAppend | analyzer/scripts/row_count.py:23 | Filtering keeps order: the filter of two pieces is the filters of the pieces, concatenated. |
| Tables.FilterBoth | analyzer/scripts/map_states_shapefile.py:16-23 | Filtering by one test and then another is filtering once by both. |
| Tables.FilterAligned | analyzer/ml/clean_and_prepare.py:15-33 | Two row sequences that pass their tests row for row keep rows at the same positions, so any pairwise relation carries over to the kept rows. |
| Tables.CountEitherBoth | analyzer/scripts/row_count.py:7-12 | Inclusion–exclusion: count(a or b) = count(a) + count(b) - count(a and b). |
| Tables.CountBothAtMost | analyzer/scripts/row_count.py:7-9 | count(a and b) is at most count(a) and at most count(b). |
| Tables.SetColumn | analyzer/scripts/train_cluster_model.py:40 | `df[c] = cells` puts cell i in row i. Other columns keep their values; the header is kept when c exists and gets c appended otherwise. |
| Tables.Rename | analyzer/scripts/map_states_shapefile.py:48 | Renaming changes only the header, and only the columns named `from`. |
| Tables.Select | analyzer/ml/clean_and_prepare.py:23-27 | `df[names]` is `KeyError` iff a name is absent, and otherwise has exactly those columns. |
| Tables.SelectGet | analyzer/ml/clean_and_prepare.py:23-27 | A selected column reads, row by row, as the column it was selected from. |
| Tables.Distinct | analyzer/scripts/split_by_state.py:26 | `unique()` has no duplicates, the same elements, and is no longer than its input. |
| Tables.DistinctCountsValues | analyzer/scripts/save_district_csvs.py:16-31 | The length of `unique()` is the number of different values. |
| Tables.Partition | analyzer/scripts/save_district_csvs.py:16-19 | When every row has one key among distinct keys, the group sizes add up to the number of rows. |
| Tables.DataPositions | analyzer/ml/clean_and_prepare.py:12 | The columns `dropna(axis=1, how='all')` keeps are exactly those holding some value, taken in increasing position. |
| Tables.DropEmptyColumns | analyzer/ml/clean_and_prepare.py:12 | Dropping the empty columns keeps every row. |
| Tables.ConvertColumn | analyzer/ml/clean_and_prepare.py:30 | `df[c] = conv(df[c])` changes column c cell by cell and nothing else. |
| Frames.Frame.DropMissing | analyzer/views.py:206 | The in-place `dropna(subset=...)` leaves the filtered table. |
| Frames.Frame.DropBlankRows | analyzer/ml/clean_and_prepare.py:15 | The in-place `dropna(how='all')` leaves the rows with some value. |
| Frames.Frame.DropEmptyColumns | analyzer/ml/clean_and_prepare.py:12 | The in-place `dropna(axis=1, how='all')`. |
| Frames.Frame.Convert | analyzer/ml/clean_and_prepare.py:74-77 | The in-place column conversion. |
| Frames.Frame.Assign | analyzer/views.py:225-227 | The in-place `df[c] = cells`. |
| Frames.Frame.RenameColumn | analyzer/scripts/map_states_shapefile.py:48 | The in-place `rename(columns={from: to})`. |
| CleanPrepare.DecodeRange | analyzer/ml/clean_and_prepare.py:74-77 | `Series.map(codes)` gives the label of a whole-number code in the table, and missing for anything else. |
| CleanPrepare.SeverityDecoding | analyzer/ml/clean_and_prepare.py:36-40 | 1, 2 and 3 decode to Fatal, Serious injury and Minor injury; every other value becomes missing. |
| CleanPrepare.RoadTypeNotInjective | analyzer/ml/clean_and_prepare.py:42-51 | 2 and 12 both give "One way street" and -1 gives "Data missing"; unlisted codes become missing. |
| CleanPrepare.LightDecoding | analyzer/ml/clean_and_prepare.py:65-71 | Light codes outside {1, 4, 5, 6, 7} become missing. |
| CleanPrepare.WeatherInjective | analyzer/ml/clean_and_prepare.py:53-63 | The weather codes are 1 to 9, and two different codes have different labels. |
| CleanPrepare.DropEmptyColumnsKeepsValues | analyzer/ml/clean_and_prepare.py:12 | Dropping empty columns loses no value of any row. |
| CleanPrepare.BlankRowsAfterColumns | analyzer/ml/clean_and_prepare.py:12-15 | After the column drop, the same number of rows have some value as before. |
| CleanPrepare.NonBlank | analyzer/ml/clean_and_prepare.py:12-15 | Both drops keep as many rows as the input has rows with some value. |
| CleanPrepare.NonBlankRows | analyzer/ml/clean_and_prepare.py:12-15 | Row i of the result is the i-th input row with some value, in order, cut down to the columns that hold a value somewhere. |
| CleanPrepare.NonBlankGet | analyzer/ml/clean_and_prepare.py:12-15 | In a header without repeated names, row i reads by column name exactly as the i-th non-blank input row. |
| CleanPrepare.Dated | analyzer/ml/clean_and_prepare.py:30-33 | Exactly as many rows survive as have a Date that parses, and every surviving row holds a parsed timestamp in Date. |
| CleanPrepare.DatedFilter | analyzer/ml/clean_and_prepare.py:30-33 | Parsing and then dropping the NaT rows equals dropping the rows whose date does not parse and then parsing. |
| CleanPrepare.DatedRows | analyzer/ml/clean_and_prepare.py:30-33 | Row i of the result is the i-th input row whose date parses, with Date parsed and every other field unchanged. |
| CleanPrepare.Decoded | analyzer/ml/clean_and_prepare.py:74-77 | Each of the four code columns holds its decoding, and every other column is unchanged. |
| CleanPrepare.Prepared | analyzer/ml/clean_and_prepare.py:9-77 | The selection fails iff a listed column is absent after the empty-column drop. Otherwise the output has exactly the 11 columns in order, and at most as many rows as the input has non-blank rows. |
| CleanPrepare.SelectedParsedRows | analyzer/ml/clean_and_prepare.py:23-33 | The selected rows whose date parses read, at the eleven columns, as the input rows that have a value and whose date parses. |
| CleanPrepare.PreparedRows | analyzer/ml/clean_and_prepare.py:9-77 | Saved row i is the i-th input row that has a value and whose date parses. At each of the eleven columns it holds that row's value, with the date parsed and the four codes decoded. |
| CleanPrepare.PreparedDates | analyzer/ml/clean_and_prepare.py:30-33 | Every saved row has a parsed Date. |
| CleanPrepare.PreparedLabels | analyzer/ml/clean_and_prepare.py:74-77 | Every saved code column holds a label of its table or is missing. |
| CleanPrepare.NoRowsNoColumns | analyzer/ml/clean_and_prepare.py:12-27 | With no rows, every column is dropped as empty, so the selection fails. |
| CleanPrepare.CleanAndPrepare | analyzer/ml/clean_and_prepare.py:9-77 | The in-place script gives the same result as `Prepared`. |
| TrainModel.Mask | analyzer/scripts/train_cluster_model.py:19 | The boolean mask has one entry per row, and each entry is true iff the row passes. |
| TrainModel.PositionsExact | analyzer/scripts/train_cluster_model.py:19 | The index labels left by `dropna` are exactly the passing positions, in increasing order. |
| TrainModel.FilterAtPositions | analyzer/scripts/train_cluster_model.py:19 | Filtered row j is the original row at the j-th passing position, so the order is kept. |
| TrainModel.KeptRows | analyzer/scripts/train_cluster_model.py:19 | Kept row j is the input row at the j-th passing position, and it has both coordinates. |
| TrainModel.TrainClusterModel | analyzer/scripts/train_cluster_model.py:16-53 | It fails iff a coordinate column is missing (`KeyError`), or the scaler raises `ValueError` because no row keeps both coordinates or a kept coordinate is infinite. The surviving rows are the rows with both coordinates, in order and otherwise unchanged. After the reset the index is 0..n-1. `cluster_label` holds one label per row by position. The model is fitted with `eps=0.05, min_samples=10`. Then n_clusters + n_noise ≤ n. |
| MergeInspect.Group | analyzer/ml/merge_and_inspect.py:11 | An accident's group is exactly the rows with its index, and a missing index has no group. |
| MergeInspect.NonMissing | analyzer/ml/merge_and_inspect.py:12 | The `count` aggregation is at most the group size, and 0 when every value is missing. |
| MergeInspect.Tally | analyzer/ml/merge_and_inspect.py:11-23 | An accident's count is at most the size of its group, and a missing index counts 0. |
| MergeInspect.TallyAbsent | analyzer/ml/merge_and_inspect.py:11-23 | An accident that no row mentions counts 0. |
| MergeInspect.Aggregate | analyzer/ml/merge_and_inspect.py:11-24 | `KeyError` iff a named column is missing. The columns are the index, the count and the means. There is one row per distinct index, holding its key and its count. |
| MergeInspect.OneRowPerAccident | analyzer/ml/merge_and_inspect.py:11-24 | The aggregate keys have no duplicates and are exactly the indexes that some row carries. |
| MergeInspect.UniqueKeysKeepRows | analyzer/ml/merge_and_inspect.py:27-28 | Against unique keys, a left merge keeps every left row exactly once, in order. |
| MergeInspect.LeftMerge | analyzer/ml/merge_and_inspect.py:27-28 | The merged header is the left header followed by the right one without its key. |
| MergeInspect.MergeAndInspect | analyzer/ml/merge_and_inspect.py:11-32 | Defined iff the merges can run. The columns are the accident columns followed by the vehicle and casualty columns, and there are as many rows as accidents. |
| MergeInspect.MergeKeepsAccidents | analyzer/ml/merge_and_inspect.py:27-28 | Every accident row is kept once, in order, with all its original fields unchanged. |
| MergeInspect.CountsPerAccident | analyzer/ml/merge_and_inspect.py:11-32 | `Num_Vehicles` is the number of that accident's vehicle rows with a `Vehicle_Type`, and `Num_Casualties` the number of its casualty rows with a `Casualty_Severity`. Both are 0 when there are none. |
| MergeInspect.CountsAreNaturals | analyzer/ml/merge_and_inspect.py:31-32 | Both count columns hold non-negative whole numbers in every row. |
| MergeInspect.FillZero | analyzer/ml/merge_and_inspect.py:31-32 | `fillna(0)` replaces each missing cell of the column with 0 and changes nothing else. |
| RowCount.RowCount | analyzer/scripts/row_count.py:4-28 | Inclusion–exclusion holds, and missing-both is at most either single count. Each count is at most the total. The four counts are the numbers of rows of the table missing State, missing District, missing both and missing either (the `isna().sum()` counts). The clean table has the same columns and keeps, in order, exactly the rows with both State and District. The dropped count is the number of rows removed, and it equals missing-either. |
| RowCount.KeptIffNotMissing | analyzer/scripts/row_count.py:12-23 | `dropna` keeps a row iff it misses neither name. |
| RowCount.CleanKeepsOrder | analyzer/scripts/row_count.py:23 | The clean rows keep their original order. |
| RowCount.CleanIsIdempotent | analyzer/scripts/row_count.py:23 | Cleaning a clean table drops nothing. |
| SplitState.FirstMissing | analyzer/scripts/split_by_state.py:13-16 | The first required column that is absent, and none iff all are present. |
| SplitState.SplitByState | analyzer/scripts/split_by_state.py:13-31 | The method equals `SplitSpec`. A missing column raises before any write. Otherwise there is one file per state, in `unique()` order. A State that is not text crashes, keeping the files already written. |
| SplitState.CheckColumns | analyzer/scripts/split_by_state.py:13-16 | The column loop returns the first required column that is absent, or none. |
| SplitState.WriteStates | analyzer/scripts/split_by_state.py:26-31 | The state loop writes the files of the text states in order. At the first State that is not text it stops, keeping the files already written. |
| SplitState.SafeName | analyzer/scripts/split_by_state.py:28 | The file stem keeps the name's length and holds no space and no '/'. |
| SplitState.SafeNameChars | analyzer/scripts/split_by_state.py:28 | The sanitised name keeps its length, with ' ' turned into '_' and '/' into '-', and nothing else changed. |
| SplitState.SafeNameClean | analyzer/scripts/split_by_state.py:28 | A sanitised name has no space and no '/'. |
| SplitState.SafeNameIdempotent | analyzer/scripts/split_by_state.py:28 | Sanitising twice is sanitising once. |
| SplitState.StateRows | analyzer/scripts/split_by_state.py:19-27 | Every row of a state's file has that State and all four required fields. |
| SplitState.SavedFile | analyzer/scripts/split_by_state.py:26-30 | A state whose file is not overwritten by a later state's holds exactly that state's rows. |
| SplitState.SavedKeys | analyzer/scripts/split_by_state.py:26-30 | The directory gains exactly one file per state name. |
| SplitState.StatesPartition | analyzer/scripts/split_by_state.py:19-27 | The states' row counts add up to the number of filtered rows. |
| DistrictFiles.SaveDistrictCsvs | analyzer/scripts/save_district_csvs.py:5-31 | The method equals `SaveSpec`. A missing column raises before any write. Otherwise there is one file per (State, District) group, counted. A name that is not text crashes, keeping the files already written. |
| DistrictFiles.WriteGroups | analyzer/scripts/save_district_csvs.py:18-31 | The counting loop writes the groups in turn, up to the first that cannot be named. |
| DistrictFiles.CleanName | analyzer/scripts/save_district_csvs.py:21-22 | The file stem is as long as the stripped name and holds no space and no '/'. |
| DistrictFiles.CleanNameChars | analyzer/scripts/save_district_csvs.py:21-22 | The cleaned name is the stripped name with ' ' and '/' turned into '_', and nothing else changed. |
| DistrictFiles.CleanNameIsClean | analyzer/scripts/save_district_csvs.py:21-22 | A cleaned name has no space, no '/', and no whitespace at either end. |
| DistrictFiles.CleanNameIdempotent | analyzer/scripts/save_district_csvs.py:21-22 | Cleaning twice is cleaning once. |
| DistrictFiles.CountIsPairs | analyzer/scripts/save_district_csvs.py:16-31 | The final count is the number of different (State, District) pairs among the kept rows. |
| DistrictFiles.GroupRows | analyzer/scripts/save_district_csvs.py:8-19 | A group's file holds only kept rows that have both names, and exactly that pair. |
| DistrictFiles.GroupsPartition | analyzer/scripts/save_district_csvs.py:16-19 | The group sizes add up to the number of kept rows. |
| DistrictFiles.SavedFile | analyzer/scripts/save_district_csvs.py:25-30 | A group whose path no later group overwrites holds exactly its rows. |
| StateShapes.ChainIsOneFilter | analyzer/scripts/map_states_shapefile.py:16-23 | The four filters one after the other equal one filter by all four conditions. |
| StateShapes.CleanAccidents | analyzer/scripts/map_states_shapefile.py:13-27 | The in-place and rebinding steps give the cleaned table of `CleanSpec`, or the `KeyError` of a missing coordinate column. |
| StateShapes.CleanSpec | analyzer/scripts/map_states_shapefile.py:16-27 | The cleaning fails (`KeyError`) iff a coordinate column is missing; otherwise it keeps the header and drops rows only. |
| StateShapes.CleanedRows | analyzer/scripts/map_states_shapefile.py:16-27 | Cleaned row i comes from the i-th passing input row, in order. Its coordinates are that row's, converted to numbers, and every other field is unchanged. |
| StateShapes.CleanedCoordinates | analyzer/scripts/map_states_shapefile.py:16-27 | Every cleaned row had a value somewhere, and both its coordinates are numbers, not NaN. |
| StateShapes.ChainParts | analyzer/scripts/map_states_shapefile.py:16-23 | A row passes iff it has a value, both coordinates are present, and both are numeric. |
| StateShapes.CleanKeepsOrder | analyzer/scripts/map_states_shapefile.py:16-23 | Cleaning two pieces gives the two cleaned pieces concatenated. |
| StateShapes.FirstPresent | analyzer/scripts/map_states_shapefile.py:45-47 | The first candidate that is a column, with none earlier present; none iff no candidate is a column. |
| StateShapes.StateRenamed | analyzer/scripts/map_states_shapefile.py:45-49 | The rows and the number of columns are kept, and a `state` column exists once some candidate is present. |
| StateShapes.RenamesFirstCandidateOnly | analyzer/scripts/map_states_shapefile.py:45-49 | Only the first present candidate is renamed to `state`. With no candidate, nothing changes. |
| StateShapes.RenameState | analyzer/scripts/map_states_shapefile.py:46-49 | The loop with `break` renames in place, and the result equals `StateRenamed` of the old table. |
| StateShapes.DropIgnoring | analyzer/scripts/map_states_shapefile.py:52 | The columns are exactly those not named, and every row is kept. |
| StateShapes.DropKeepsColumnOrder | analyzer/scripts/map_states_shapefile.py:52 | The remaining columns keep their original order. |
| StateShapes.DropAbsentKeepsAll | analyzer/scripts/map_states_shapefile.py:52 | Names that are not columns are ignored: every column and every cell is kept. |
| StateShapes.MapStatesShapefile | analyzer/scripts/map_states_shapefile.py:13-52 | The script is clean, then join, then rename, then drop. It fails iff the cleaning does. |

## Left out

- Fitting DBSCAN and `StandardScaler`: the clusterer is a parameter that gives one label per point.
- `joblib` persistence: the saved model is an `Option` slot.
- Date parsing, monthly bucketing and `resample('M')`: dates are a parameter, read in too little detail to bucket.
- Floating-point statistics: the map centre means and the vehicle age and engine-capacity means. The means are a parameter.
- `mode()` values and `value_counts()` charts: only their failure on an all-missing column is modelled.
- Rendering: folium maps, heatmaps, plots, JSON for templates, `print` output and the row cap of `head(3)`.
- The dashboard page, auth views, routing and the ORM model: none of them is table bookkeeping.
- The spatial join, shapefile loading and `to_crs` of `map_states_shapefile.py`: the join is a parameter.
- `add_district_column.py`, the network geocoder, `state_filter_plot.py` and `generate_hotspot_map.py`: geometry, network and plotting code. The `retrain_clusters` command calls a helper that is not part of this model.
- The GET branch of `submit_page`: the dropdown lists are modelled only by how they fail (an unreadable master or a missing listed column). Their contents, and `sorted`'s `TypeError` on mixed types, are not modelled.
- `os.makedirs` and directory errors of the scripts: the output directories are taken to be creatable.
- pandas type inference on read and the renaming of duplicate headers: a file's table is given as read.
- Views.ClusterLabels: the refit on the district page uses the saved model's parameters, not the saved labels, just as `fit_predict` does. The scaler output is part of the clusterer parameter.
- MergeInspect.MergeAndInspect: it fails when an accident column clashes with a count column. Clashes with the `Avg_*` columns are renamed with suffixes by pandas and are not modelled.
- MergeInspect.Aggregate: groups come in order of first appearance. pandas' sorted `groupby` gives another row order of the aggregate, which the left merges do not depend on.
- DistrictFiles.SaveDistrictCsvs: the groups are visited in order of first appearance, not in pandas' sorted order. For a run that completes, the count and the final files do not depend on the order, except which group wins when two sanitise to the same path. When a name is not text, the order decides which files were written before the crash, and that set is not the one pandas' order gives.
- MergeInspect.FillZero: `astype(int)` is the identity on the counts, which are already whole.
- Tables.Parsers: `float()`, `to_numeric`, `to_datetime` and `astype(str)` of a float are abstract functions. Only whether they succeed, and the cell kinds they produce, matter.
- Submission.Respond: the `districts/<state>/` and `states/` folders are taken to exist. A missing one makes `to_csv` raise `FileNotFoundError` after the appends before it; that failure is not modelled.
- Submission.Respond: a text coordinate left in the reloaded master makes the scaler raise. The model hands such a cell to the clusterer parameter instead of failing.
- Views.HotspotView: when a model is saved, an infinite coordinate survives `to_numeric` and `dropna` and makes the scaler raise `ValueError`. That failure is not modelled.
- Views.StatePageView: when no row has a numeric coordinate, the map centre is a NaN mean that `folium.Map` may reject. Map rendering is not modelled.
- TrainModel.TrainClusterModel: a text coordinate makes the scaler raise. The model hands such a cell to the clusterer parameter instead of failing.
- CleanPrepare.PreparedRows: the header is taken to have no repeated name, as pandas renames repeated headers on read.
- Storage.Append: a line wider than the file's header is not modelled as pandas reads it. When the file already has rows, the next `read_csv` raises `ParserError`; when it has only a header, pandas takes the extra leading fields as the index. The model keeps the line whole and reads it from the front, so its fields past the header read as missing.
- Storage.AppendedRowReads: it reads the appended row from the front of the line. This matches pandas only when the line is no wider than the header (see the Storage.Append line).
- Submission.Respond: inherits the wide-line case of Storage.Append. A record wider than the master's header makes the reload after the appends fail in pandas, where the model goes on to the dashboard.
- Submission.BuildRecord: floats are modelled as exact reals, so the rounding in `float(new_index)` is not modelled. Beyond 2^53 that rounding can give two reports the same stored index.
- Submission.IndexesFollowOneAnother: holds for exact reals. The source's doubles keep it only while the index stays below 2^53.
- Submission.Dashboard.Submit: proved equal to Respond, so it inherits the same wide-line case.
- Submission.Stored: the district and state names from the form are taken to contain no path separator and no `..`. Names that do could make two of the three paths one file, or point outside the data directory; path joining and normalisation are not modelled.
