# immoDB transaction import, modelled in Dafny

This project models the import scripts of immoDB, a French property-transaction
database. The scripts load the transactions archive (an `.npz` file of NumPy arrays),
remove price outliers and write the result to a SQL database. A companion script loads
a directory of CSV files as tables.

The model covers:

- **Archive decoding** (`archive.dfy`): every `uint8` array is split on NUL bytes and
  each piece is decoded as UTF-8. Other arrays pass through unchanged. The named
  columns then become rows, as `DataFrame.from_dict` builds them.
- **Outlier filter** (`outliers.dfy`, `stats.dfy`): `clean_transactions_absurd`.
  - It groups by (year of `date_transaction`, `departement`).
  - For each group it computes the median and the sample standard deviation of
    `prix / surface_habitable`.
  - It joins the two statistics back to every row with an inner merge.
  - It keeps the rows strictly below `median + 3 std` (import_transactions,
    import_data), or strictly inside `median ± 2 std` (script_model_transactions).
  - It drops the helper columns.

  The merge-based filter is proved equal to a reference filter with no join: judge
  each row against its own group.
- **Frame operations** (`cleaning.dfy`): the frame's columns and rows, updated in place.
  - The minimum-price drop (`clean_transactions_range`) happens in place.
  - `clean_transactions_absurd` adds the `year` column to the caller's frame.
  - The result's column list is tracked, including the leftover
    `date_transaction_stats` column.
  - `clean_transactions` reports the suppressed count. Its percentage divides by the
    number of REMAINING rows, so it raises ZeroDivisionError when no row survives.
- **Database writers** (`store.dfy`): a database of named tables and a session log.
  - The chunked `write_to_db` appends slices of 10000 rows and commits each one. On a
    failure it rolls back and re-raises; the session is always closed.
  - The writes go through the engine, so chunks written before a failure stay in the
    table. The rollback does not undo them.
  - The replace-style writers of the other scripts are also modelled.
- **CSV import** (`csv_import.dfy`): `process_csv_files`.
  - It processes the entries with an exact, case-sensitive `.csv` suffix.
  - The table name is the POSIX `splitext` root of the file name.
  - `clean_data` is the identity.
  - Each table is replaced, and the run stops at the first read or write failure.
- **Script flows** (`scripts.dfy`): the top level of each script.
  - script_model_transactions raises ValueError up front when
    `SOURCES_TRANSACTIONS` is unset.
  - import_data never writes, because its call to `write_to_db` is commented out.
  - transactions_tosql replaces the table `transactions`, index included.

`clean_transactions_range` is defined in three scripts but called by none of them. In
import_data the call is commented out. It is modelled as written.

The sample standard deviation needs a square root. It is therefore a parameter `std`
of the model, constrained by `Stats.SampleStdLaws`:

- it is defined (not NaN) iff the group has at least two values;
- it is never negative;
- it is zero iff all values are equal.

The last law holds in exact arithmetic; pandas' floating-point std of equal values can
come out as a tiny positive number (see "## Left out").
`Stats.SampleStdLawsSatisfiable` shows the laws can be met. The median is computed
exactly over `real`.

## Model

| member | source | states |
|---|---|---|
| Outliers.MergeKeepsEveryRowOnce | scripts/import_transactions.py:56-62 | the statistics frame has one row per (year, departement) key, so the inner merge yields each input row exactly once, in order, carrying its own group's median and std and the stats year equal to its own year |
| Outliers.CleanAbsurdIsGroupFilter | scripts/import_transactions.py:54-67 | the merge, mask and column drop equal the reference filter that judges each row against the statistics of its own group, with no join |
| Outliers.CleanAbsurdSubsetOfInput | scripts/import_transactions.py:64-66 | the result's rows are exactly the input rows that pass, in input order; a sub-multiset of the input, never longer |
| Outliers.CleanAbsurdMembership | scripts/import_transactions.py:64-66 | a cleaned row is in the result iff it is an input row tagged with its own year and passing its group's bound (both directions) |
| Outliers.OneSidedKeepsExactly | scripts/import_transactions.py:64 | under the 3 std variant a row survives iff its group has at least two rows and its ratio is strictly below median + 3 std |
| Outliers.TwoSidedKeepsExactly | scripts/script_model_transactions.py:65 | under the 2 std variant a row survives iff its group has at least two rows and median - 2 std < ratio < median + 2 std, both strict |
| Outliers.KeptIffPasses | scripts/import_transactions.py:61-66 | an input row (with its year) is in the result iff it passes the bound of its own group |
| Outliers.UniformGroupFails | scripts/script_model_transactions.py:60-65 | a row of a group of at least two equal ratios sits on its median with std 0, so it fails the strict bound of either variant |
| Outliers.SingletonGroupDropped | scripts/import_transactions.py:56-64 | a group of one transaction has std NaN, so none of its rows survives under either variant |
| Outliers.UniformGroupDropped | scripts/script_model_transactions.py:60-65 | a group of at least two equal ratios has std 0 and the strict bound removes all of its rows |
| Outliers.OneSidedNoLowerBound | scripts/import_data.py:67-68 | the one-sided mask has no lower bound: a row below its group median is kept (when the std is positive or it is strictly below) |
| Outliers.TwoSidedKeepsMedianRow | scripts/script_model_transactions.py:65 | a row whose ratio equals its group median is kept by the two-sided mask when the group std is positive |
| Outliers.TwoSidedWithinOneSided | scripts/script_model_transactions.py:65 | the 2 std two-sided result is the 3 std one-sided result further filtered, hence a sub-multiset of it |
| Outliers.RatioInOwnGroup | scripts/import_transactions.py:56-57 | every row's ratio belongs to the ratios of its own group |
| Outliers.DistinctKeys | scripts/import_transactions.py:56-57 | the group keys are pairwise distinct, cover every row's key, and each is the key of some row |
| Outliers.Merge | scripts/import_transactions.py:61-62 | the inner merge against the statistics frame; its behaviour is stated by Outliers.MergeKeepsEveryRowOnce |
| Outliers.StatsTable | scripts/import_transactions.py:56-57 | one statistics row per distinct key with that group's median and std; stated by Outliers.MergeKeepsEveryRowOnce and Outliers.DistinctKeys |
| Outliers.Keep | scripts/import_transactions.py:64 | the mask; its meaning for each variant is stated by Outliers.OneSidedKeepsExactly and Outliers.TwoSidedKeepsExactly |
| Outliers.FilterMerged | scripts/import_transactions.py:64-66 | the mask followed by the column drop never adds a row |
| Outliers.DropHelpers | scripts/import_transactions.py:66 | keeps the row and `date_transaction_stats`, dropping `median`, `std` and `year`; see Cleaning.ResultColumnsShape |
| Outliers.CleanAbsurd | scripts/import_transactions.py:54-67 | the merge, mask and drop never produce more rows than the input |
| Stats.Middle | scripts/import_transactions.py:57 | the middle (or mean of the two middle values) of an ascending sequence lies between its first and last values |
| Stats.Median | scripts/import_transactions.py:57 | the median is defined iff the group is non-empty (pandas gives NaN for an empty series) |
| Stats.MedianWithinRange | scripts/import_transactions.py:57 | the median lies between a smallest and a largest value of the group |
| Stats.MedianSplitsSorted | scripts/import_transactions.py:57 | the first ⌈n/2⌉ sorted values are at most the median and the last ⌈n/2⌉ at least it, which tells the median from the mean |
| Stats.MiddleSplits | scripts/import_transactions.py:57 | the middle of an ascending sequence is at least its first half and at most its second half |
| Stats.MedianOfConstant | scripts/import_transactions.py:57 | a group of equal values has that value as its median |
| Stats.Sort | scripts/import_transactions.py:57 | the sorted values are ascending and a permutation of the group |
| Stats.SampleStdLawsSatisfiable | scripts/import_transactions.py:57 | the laws assumed of the standard deviation are consistent |
| Cleaning.ResultColumns | scripts/import_transactions.py:59-66 | the column list of the result; stated by Cleaning.ResultColumnsShape |
| Cleaning.MergeColumns | scripts/import_transactions.py:61-62 | the merge's column list; stated by Cleaning.StatsColumnsAdded |
| Cleaning.AtLeastPrice | scripts/import_transactions.py:50 | the rows kept by the range filter; stated by Cleaning.RangeFilterExact |
| Cleaning.ResultColumnsShape | scripts/import_transactions.py:59-66 | the cleaned frame has the input columns plus `date_transaction_stats`; `year`, `median` and `std` are dropped |
| Cleaning.StatsColumnsAdded | scripts/import_transactions.py:61-62 | the merge appends `date_transaction_stats` (suffixed because `date_transaction` collides), `median` and `std`, and does not repeat the shared `departement` key |
| Cleaning.RangeFilterExact | scripts/import_transactions.py:48-51 | the range filter keeps a row iff its price is at least the minimum, loses nothing else, and leaves a frame with no cheap row unchanged |
| Cleaning.Frame.DropBelowMinPrice | scripts/import_transactions.py:48-51 | in place: the rows become those priced at least the minimum, columns unchanged; a missing setting raises before any change |
| Cleaning.MinPriceFromConfig | scripts/import_data.py:49-52 | a missing `min_price` config key is a KeyError, otherwise its value is the minimum |
| Cleaning.MinPriceFromEnv | scripts/script_model_transactions.py:54-56 | an unset MIN_PRICE makes `int(None)` raise TypeError, otherwise its value is the minimum |
| Cleaning.CleanTransactionsAbsurd | scripts/import_transactions.py:54-67 | adds `year` to the caller's frame in place (rows unchanged); a frame with no rows then raises KeyError, because the empty group-by has no `median` or `std` column; otherwise it returns the filtered rows with the result columns |
| Cleaning.SuppressionReport | scripts/import_transactions.py:41-44 | the report raises ZeroDivisionError iff no row remains; otherwise it gives initial - remaining suppressed rows and a non-negative percentage |
| Cleaning.CleaningReport | scripts/import_transactions.py:40-45 | for a clean run the suppressed count is between 0 and the input size, and the report raises exactly when the filter removed every row |
| Cleaning.CleanTransactions | scripts/import_transactions.py:40-45 | KeyError for a frame with no rows; otherwise the filtered frame, or ZeroDivisionError exactly when it is empty; the caller's frame gains `year` |
| Store.Database.ToSqlAppend | scripts/import_transactions.py:75 | an accepted append adds the rows after the table's existing rows (creating it if missing); a rejected one changes no table |
| Store.Database.Session | scripts/import_transactions.py:71-82 | a session call (commit, rollback, close) changes no table and adds one event to the log |
| Store.WithRangeIndex | scripts/transactions_tosql.py:11 | row i is written with index label i, for every row |
| Store.Database.ToSqlReplace | scripts/import_other_tables.py:47 | an accepted replace makes the table hold exactly the frame; a rejected one changes no table |
| Store.ChunksFrom | scripts/import_transactions.py:73-74 | the slices from `start` on are empty exactly when `start` is past the last row |
| Store.Chunks | scripts/import_transactions.py:73-74 | the chunks concatenate back to the frame |
| Store.ChunksPartition | scripts/import_transactions.py:73-74 | the `iloc` slices over `range(0, n, c)` are non-empty, at most c rows, concatenate back to the frame, and number ceil(n / c) |
| Store.ChunksFromShape | scripts/import_transactions.py:73-74 | chunk k is exactly rows [k c, min(k c + c, n)) |
| Store.ChunkedWriteContents | scripts/import_transactions.py:73-76 | after f accepted chunks the table holds its old rows plus the first min(f c, n) frame rows, the whole frame when all are accepted; other tables are untouched |
| Store.AppendAllContents | scripts/import_transactions.py:75 | appending chunks one by one leaves the table with its old rows followed by all chunk rows |
| Store.AppendAllOthers | scripts/import_transactions.py:75 | appending to one table leaves every other table as it was |
| Store.FirstFailure | scripts/import_transactions.py:73-80 | the number of chunks written is the length of the longest accepted prefix |
| Store.ChunksPrefix | scripts/import_transactions.py:73-74 | the first k chunks concatenate to exactly the first min(k c, n) rows of the frame |
| Store.AppendChunk | scripts/import_transactions.py:74-80 | one loop pass: an accepted chunk is appended after the table's rows and committed; a rejected one changes no table and is rolled back and closed |
| Store.RoundsShape | scripts/import_transactions.py:75-76 | each written chunk is one append followed by one commit |
| Store.WriteChunks | scripts/import_transactions.py:72-82 | for a positive chunk size, the loop appends the accepted prefix of chunks, logging append and commit per chunk, then append, rollback and close at the first rejection, or close after the last chunk |
| Store.WriteToDb | scripts/import_transactions.py:70-82 | chunk size > 0: tables hold the accepted prefix of chunks; the log is append-commit per chunk, then rollback on the first rejection, and always close; the result is the error or success. Size 0 raises ValueError (rollback, close); a negative size writes nothing |
| Store.WriteTableReplace | scripts/import_other_tables.py:44-54 | replace then commit and close; a rejected write rolls back, closes and propagates, leaving the tables unchanged |
| Store.ReplaceTable | scripts/import_data.py:76-81 | one replace-style write without a session; a failure is re-raised unchanged and changes no table |
| Archive.Split | scripts/import_transactions.py:35 | `bytes.split(b"\x00")` always gives at least one piece |
| Archive.JoinSplit | scripts/import_transactions.py:35 | splitting on NUL loses no byte: rejoining the pieces with NUL gives the bytes back |
| Archive.SplitJoin | scripts/import_transactions.py:35 | splitting inverts joining NUL-free pieces with NUL |
| Archive.SplitNulFree | scripts/import_transactions.py:35 | no piece contains a NUL byte |
| Archive.SplitCount | scripts/import_transactions.py:35 | there is exactly one more piece (decoded string) than NUL bytes |
| Archive.SplitTrailingNul | scripts/transactions_tosql.py:9 | a trailing NUL adds one empty last piece |
| Archive.DecodeAll | scripts/import_transactions.py:35 | every piece decoded in order, or UnicodeDecodeError exactly when some piece is not valid UTF-8 |
| Archive.DecodeColumn | scripts/transactions_tosql.py:9 | a non-`uint8` array is kept as it is; a `uint8` array decodes iff all its pieces do, into NUL-count + 1 strings, string k being the UTF-8 decoding of piece k |
| Archive.DecodeArchive | scripts/import_transactions.py:34-35 | every array decoded under its own name and in order, or an error exactly when one array fails |
| Archive.FromDict | scripts/import_transactions.py:36 | ValueError iff the columns differ in length; otherwise one row per position whose cell k comes from column k, and the columns keep their names; no columns give no rows |
| CsvImport.TargetsExact | scripts/import_other_tables.py:58-61 | a listing entry is processed iff its name ends in `.csv` (case-sensitive); its table is the splitext root of the name |
| CsvImport.EndsWithCsv | scripts/import_other_tables.py:59 | a name ends in `.csv` iff it is some stem followed by `.csv` |
| CsvImport.SplitextRoot | scripts/import_other_tables.py:61 | the root is a prefix of the path; when shorter, it stops at the last dot, after which there is no dot and no `/`, and its last path component has a character other than a dot; when it is the whole path, every dot of the last component has only dots before it |
| CsvImport.TableName | scripts/import_other_tables.py:61 | the table is the splitext root of the file name; see CsvImport.CsvTableName and CsvImport.TargetsExact |
| CsvImport.CsvTableName | scripts/import_other_tables.py:61 | the table of `X.csv` is `X`, except that a name made only of dots before `.csv` is kept whole |
| CsvImport.PathJoin | scripts/import_other_tables.py:60 | an absolute name is the path; otherwise the path is the directory, one `/` unless the directory is empty or ends in `/`, then the file name |
| CsvImport.ImportCsv | scripts/import_other_tables.py:57-64 | the run only appends to the log, fails only with a read or a write error, and a successful run logs three events per file |
| CsvImport.ReadIn | scripts/import_other_tables.py:60-62 | the frame read for a listing entry is `read_csv` of the entry joined to the directory; used by CsvImport.ProcessCsvFiles |
| CsvImport.ImportCsvSucceeds | scripts/import_other_tables.py:57-64 | the run succeeds iff every file is read and every write accepted |
| CsvImport.ImportCsvContents | scripts/import_other_tables.py:57-64 | after a successful run, the table of each file that no later file shares holds exactly what was read from it (`clean_data` changes nothing) |
| CsvImport.ImportCsvOthers | scripts/import_other_tables.py:57-64 | whatever the outcome, a table named after none of the processed files keeps its contents, or stays absent |
| CsvImport.Processed | scripts/import_other_tables.py:57-64 | the number of files the run gets through never exceeds the number of targets; see CsvImport.ProcessedExact |
| CsvImport.ProcessedExact | scripts/import_other_tables.py:57-64 | the processed files were all read and accepted, and the next one was not: the longest such prefix |
| CsvImport.ImportCsvFailure | scripts/import_other_tables.py:49-54 | a failed run stops at the file after the processed ones: the earlier files are logged replace, commit, close; then nothing more for a read failure, or replace, rollback, close for a rejected write; later files are never touched |
| CsvImport.CleanData | scripts/import_other_tables.py:38-41 | the placeholder returns its frame unchanged; its effect is stated by CsvImport.ImportCsvContents |
| CsvImport.ImportCsvLog | scripts/import_other_tables.py:44-54 | a successful run logs replace, commit and close once per file, in order |
| CsvImport.ProcessCsvFiles | scripts/import_other_tables.py:57-64 | the loop over the listing leaves the tables, log and outcome of the run over its `.csv` entries, stopping at the first failure |
| Scripts.ImportTransactionsMain | scripts/import_transactions.py:84-86 | the frame gains `year`; a frame with no rows (KeyError) or a 3 std clean with no survivor (ZeroDivisionError) raises with the database untouched; otherwise the accepted prefix of 10000-row chunks is appended to `transactions`, with append-commit per chunk, rollback at the first rejection, and close |
| Scripts.ScriptModelMain | scripts/script_model_transactions.py:17-21 | an unset SOURCES_TRANSACTIONS raises ValueError with nothing changed; otherwise the frame gains `year`, a frame with no rows (KeyError) or a 2 std clean with no survivor (ZeroDivisionError) raises with the database untouched, else the accepted prefix of 10000-row chunks is appended to `transactions` with the same session log as `write_to_db` |
| Scripts.ImportDataMain | scripts/import_data.py:84-87 | import_data only cleans with the 3 std bound (KeyError for a frame with no rows, ZeroDivisionError when nothing survives); it writes no table |
| Scripts.ImportOtherTablesMain | scripts/import_other_tables.py:57-66 | a missing `directorycsv` key raises KeyError before anything; a failing `os.listdir` raises with nothing changed; otherwise the CSV run over the listing |
| Scripts.TransactionsToSqlMain | scripts/transactions_tosql.py:8-11 | a failing `np.load`, a decoding error or ragged columns raise before the write; otherwise `transactions` is replaced by the rows with the 0..n-1 index |

## Left out

- Stats.SampleStdLaws: the standard deviation is a parameter with laws, not pandas'
  floating-point sqrt. Rounding, NaN propagation beyond "fewer than two values", and
  the exact value are not modelled.
- Arithmetic is exact over `real`. IEEE-754 rounding of ratios, medians and bounds is
  not modelled.
- The order of the rows in `grouped_stats`: the model uses first-occurrence order, while
  pandas sorts the keys. The model's inner merge keeps the left frame's order, so its
  result does not depend on it.
- Outliers.Merge: keeping the left frame's row order in an inner merge is the behaviour
  of pandas 2.2 and later, which the model assumes; no pandas version is pinned by the
  scripts. Earlier pandas returned the rows of an inner merge with repeated left keys
  grouped by key. Under either version the membership and multiset results
  (Outliers.CleanAbsurdMembership, Outliers.KeptIffPasses, the sub-multiset part of
  Outliers.CleanAbsurdSubsetOfInput and Outliers.TwoSidedWithinOneSided) hold; the
  "in input order" part of Outliers.CleanAbsurdIsGroupFilter and
  Outliers.CleanAbsurdSubsetOfInput, and which rows fall into which 10000-row chunk of
  Store.WriteToDb, hold only under the 2.2 order.
- Outliers.UniformGroupDropped: holds in exact arithmetic only. pandas computes the
  variance in floating point, so equal ratios such as three times 0.1 can give a mean
  of 0.10000000000000002 and a std of about 1.7e-17; the strict bound then keeps those
  rows under both variants.
- Outliers.UniformGroupFails: holds in exact arithmetic only, for the same reason.
- Converting decoded archive columns to typed transaction rows (`pd.to_datetime` on
  `date_transaction`, numeric columns) is not modelled. The outlier filter takes rows
  whose `year` is already the parsed year.
- Archive.DecodeAll: UTF-8 decoding is the parameter `utf8`.
- `np.load`, `pd.read_csv`, `os.listdir`, configuration files and environment
  variables are I/O. Scripts.TransactionsToSqlMain, Scripts.ImportOtherTablesMain,
  CsvImport.ImportCsv and the setting readers of cleaning.dfy take their results as
  parameters, a failure as `None` (LoadFailed, ListDirFailed, ReadFailed, KeyError,
  TypeError, ValueError). Which exception class the failing call raises
  (FileNotFoundError, PermissionError, a corrupt-archive error) is not distinguished.
- ImportTransactionsMain: takes the frame `read_transactions` already built. The
  KeyError of `config["sources"]["transactions"]`, a failing `np.load`, and the decode
  or ragged-column errors of `read_transactions` are not modelled for this flow.
- ScriptModelMain: takes the frame already built from the archive the variable names.
  A failing `np.load` and the decode or ragged-column errors of `read_transactions`
  are not modelled for this flow.
- ImportDataMain: takes the frame already built. The KeyError of
  `config["sources"]["transactions"]`, a failing `np.load`, and the decode or
  ragged-column errors of `read_transactions` are not modelled for this flow.
- The model does not parse the minimum price's text (`int(...)` of a non-numeric
  value raising ValueError). The settings are given as optional integers.
- pandas' MergeError for duplicate result columns, and KeyError for a missing
  `prix`, `surface_habitable`, `departement` or `date_transaction` column, are not
  modelled. The rows always carry those fields.
- `surface_habitable` is strictly positive by its type. Division by zero and the
  infinite ratios pandas would give are not modelled.
- `drop(index, inplace=True)` assumes a unique index. Duplicate index labels, which
  would drop extra rows, are not modelled.
- The index labels that import_data would write are not modelled. Its write is
  commented out, and its `ReplaceTable` takes the rows without them.
- The `log_in_out` decorators and all `print` output, including the formatted
  percentage, are not modelled. So are the timing calls.
- Opening and closing the sqlite or MySQL connection are not modelled. So are database
  transactions inside one `to_sql`: each call is taken as atomic, accepted or rejected
  by the `ok` / `accepted` parameters.
- Store.WriteToDb: the exception message printed on failure is not modelled.
- CsvImport.SplitextRoot: Windows separators are not modelled; POSIX `/` only.
- scripts/script_model_transaction_meanMonth.py, App/main.py and the app/ files are
  not part of this model.
