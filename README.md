# quantools fractional differencing, in Dafny

This project models the fractional differencing engine of quantools and the
parts of its `Table` class that use it. The model is written in Dafny, and its
properties are proved.

- `FractionalDiff._diff` differences a series at a real order. It rolls a
  window of 10 observations over the series, weighted by
  `(-1)^k * binom(order, k)`. Order 1 is the plain first difference.
- `FractionalDiff._autodiff` searches for the smallest order that makes a
  series stationary. It bisects the bracket [0, 4] with a unit-root test (the
  *oracle*) until the bracket is narrower than `precision`.
- `FractionalDiff._1D_diff` and `FractionalDiff.__call__` use a fixed order or
  the search. `__call__` validates its options, dispatches on the input's
  shape (Series, TableSeries, Table, multi-column DataFrame), processes the
  columns one at a time, and optionally renames them and returns the orders.
- `Table` (the current `quantools/table/_table.py` and the older
  `quantools/table/table.py`) checks a file's type, then may move a date
  column into its index. This happens when the first value of the column is
  a date string (`\d{4}-\d{2}-\d{2}` or `\d{2}/\d{2}/\d{4}` at the start), a
  Python int above 1e9 (Unix seconds), or a datetime value.
  `stationnarize` runs the engine on the numeric columns. It either returns
  the result or overwrites those columns in place and sets `is_stationnary`.

A series is a `seq<Option<real>>`: `None` is a missing value (NaN). The
oracle is a parameter `seq<real> -> bool`. It is applied to the series once
its missing values are dropped, as `isStationnary` does with `X.dropna()`.
Values are exact reals.

Modules (one file each):

| file | module | models |
|---|---|---|
| wrappers.dfy | `Wrappers` | Option and Result |
| data.dfy | `Data` | series, named series, oracle, errors |
| diff_operator.dfy | `DiffOperator` | `_diff` |
| order_search.dfy | `OrderSearch` | `_autodiff` |
| table_search.dfy | `TableSearch` | `_diff` and `_autodiff` on a one-column `Table` |
| fractional_diff.dfy | `FractionalDiff` | `_1D_diff`, `__call__` |
| table_rules.dfy | `TableRules` | file type check, date patterns, constructor scan, numeric selection, write-back |
| stationnarization.dfy | `Stationnarization` | `stationnarize` after the numeric selection |
| table.dfy | `TableModel` | class `Table` of `_table.py` |
| legacy_table.dfy | `LegacyTableModel` | class `Table` of `table.py`, with `return_Table` |

The order search is written twice. `OrderSearch.Bisect` is a recursive
function that states the loop. `OrderSearch.ComputeAutoDiff` is the loop as
written, proved equal to that function. Likewise `FractionalDiff.Apply`
specifies `__call__`, and `FractionalDiff.Call` and
`FractionalDiff.DiffEachColumn` are the method and its column loop, proved
against it.

Order 0 is not an exact identity in the code. Its weights are 1, 0, 0, …, so
every position whose window is full and complete keeps its value. But
`rolling(10)` still leaves the first nine positions missing
(`DiffOperator.OrderZeroIsIdentity`). The model follows the code. Order 0 is
never used as a fixed order (`__call__` refuses it), and the search returns
an already stationary series unchanged without calling `_diff`.

A one-column `Table` is handed to `_1D_diff` whole, and that has a
consequence. Every frame pandas derives from it (`copy`, `dropna`, the result
of `rolling`) is built by `Table.__init__` again. Unless the index is of
datetime dtype, the constructor's scan then reads `self[col][0]`. Under the
default integer index that is the row labelled 0. `_diff` always leaves
position 0 missing, so `dropna()` of a differenced column has no row 0 and
raises KeyError. The search on such a table therefore never returns a
differenced column (`TableSearch.TableAutoDiff`). A column whose row 0 is
missing or that has no rows raises KeyError at the first test, before the
oracle is consulted. Otherwise a column the oracle already accepts comes back
unchanged with order 0. Any other column raises KeyError at the first
midpoint when `precision` is at most 4. Above 4 the loop never runs, and the
search fails with NoValidOrder (the ValueError). A table with several columns is split with
`iloc` into `TableSeries`, which have no scan, and the older `table.py`
class does not declare its constructor to pandas, so neither is affected.

## Model

| member | source | states |
|---|---|---|
| Data.DropMissing | quantools/processing/_utils.py:5-6 | The series the oracle sees is no longer than the input. |
| Data.DropMissingSingletons | quantools/processing/_utils.py:6 | `dropna` drops a missing value and keeps a present one. |
| Data.DropMissingAppend | quantools/processing/_utils.py:6 | `dropna` of two joined parts is the `dropna` of each, joined in order. With the singleton cases this fixes the result for every series, missing values included. |
| Data.StationaryOfComplete | quantools/processing/_utils.py:5-6 | On a series without missing values, `isStationnary` is the oracle's verdict on its observations in order. |
| Data.DropMissingOfComplete | quantools/processing/_utils.py:6 | `dropna()` of a series with no missing value is exactly its observations, in order. |
| DiffOperator.Binom | quantools/processing/fractionaldiff.py:29-31 | binom(r, 0) = 1 and binom(r, 1) = r, the two weights that fix the start of the recurrence. |
| DiffOperator.Coeffs | quantools/processing/fractionaldiff.py:29-31 | There are `window_size` weights. The first is 1 and the second is -order. |
| DiffOperator.Convolve | quantools/processing/fractionaldiff.py:32 | With every weight after the first zero, the output is the first weight times the window's last (newest) observation, because `np.convolve` flips the kernel. |
| DiffOperator.CoeffRecurrence | quantools/processing/fractionaldiff.py:29-31 | The weights start at 1 and follow c[k] = -c[k-1]·(order-k+1)/k, the generalised binomial with alternating sign. |
| DiffOperator.BinomVanishesAboveNat | quantools/processing/fractionaldiff.py:29-31 | For a whole order n, every weight beyond index n is zero. |
| DiffOperator.ConvolveIsLaggedSum | quantools/processing/fractionaldiff.py:32-33 | The single output of `np.convolve(coeffs, window, "valid")` on a complete window equals the lagged sum Σ c[k]·X[t-k], because the kernel is flipped. |
| DiffOperator.DiffAt | quantools/processing/fractionaldiff.py:24-33 | Away from order 1, a position is present exactly when its whole window is present, and its value is the lagged sum. At order 1 it is present exactly when X[t] and X[t-1] are. |
| DiffOperator.RollingValue | quantools/processing/fractionaldiff.py:32-33 | A full window yields a value exactly when it holds no missing value, and the value is the lagged sum of the weights. |
| DiffOperator.Diff | quantools/processing/fractionaldiff.py:20-35 | The output has the input's length. |
| DiffOperator.DiffIsRollingSum | quantools/processing/fractionaldiff.py:24-35 | Away from order 1, position t of the output is present exactly when the w observations ending at t exist and are present, and then holds the lagged sum. The first w-1 positions are missing. |
| DiffOperator.DiffAtOrderOne | quantools/processing/fractionaldiff.py:25-27 | At order 1, position t is present exactly when X[t] and X[t-1] are, and holds X[t] - X[t-1]. |
| DiffOperator.OrderZeroIsIdentity | quantools/processing/fractionaldiff.py:29-33 | At order 0, a full, complete window returns X[t] unchanged, and the first w-1 positions are missing. |
| DiffOperator.WindowFormulaAtOrderOne | quantools/processing/fractionaldiff.py:25-33 | The window formula at order 1 has weights 1, -1, 0, …. On every full window it agrees with the special case `X - X.shift(1)`. |
| OrderSearch.Step | quantools/processing/fractionaldiff.py:52-60 | One iteration records exactly one midpoint, as accepted or as rejected, and halves the bracket. |
| OrderSearch.AutoDiff | quantools/processing/fractionaldiff.py:47-64 | The search fails only with NoValidOrder (the ValueError), and only on a series the oracle rejects. |
| OrderSearch.HalvingShrinksBudget | quantools/processing/fractionaldiff.py:51-60 | Halving a bracket at least `precision` wide lowers a non-negative measure, so the loop ends when `precision` > 0. |
| OrderSearch.Bisect | quantools/processing/fractionaldiff.py:51-60 | The loop exits with a bracket narrower than `precision`, nested inside the bracket it started from. |
| OrderSearch.StartConsistent | quantools/processing/fractionaldiff.py:47-50 | The start state [0, 4] with no candidates satisfies the loop invariant. |
| OrderSearch.AcceptKeepsConsistent | quantools/processing/fractionaldiff.py:54-57 | An accepted midpoint is appended to `_valid` and becomes the upper end, and the invariant is kept. |
| OrderSearch.RejectKeepsConsistent | quantools/processing/fractionaldiff.py:58-60 | A rejected midpoint becomes the lower end, and the invariant is kept. |
| OrderSearch.StepKeepsConsistent | quantools/processing/fractionaldiff.py:51-60 | One iteration keeps the invariant, halves the bracket and replaces exactly one end by the midpoint. |
| OrderSearch.BisectKeepsConsistent | quantools/processing/fractionaldiff.py:51-60 | The invariant holds when the loop exits, and the accepted and rejected lists only grow. |
| OrderSearch.AutoDiffSound | quantools/processing/fractionaldiff.py:47-64 | An already stationary series comes back unchanged with order 0. Otherwise the call fails with NoValidOrder exactly when no midpoint was accepted. On success the order lies in (0, 4), is the smallest accepted order and the upper end of the exit bracket, and the series is X differenced at it and passes the oracle. |
| OrderSearch.MonotoneConvergence | quantools/processing/fractionaldiff.py:47-64 | If acceptance is monotone in the order, no order more than `precision` below the returned one is accepted. After a failure, no order up to 4 - `precision` is accepted. |
| OrderSearch.StepGrowsLists | quantools/processing/fractionaldiff.py:53-60 | One iteration only appends: the accepted and rejected lists of the old state are prefixes of the new ones. |
| OrderSearch.BisectLoop | quantools/processing/fractionaldiff.py:51-60 | The `while` loop over `a`, `b` and `_valid` ends with the accepted list the recursive search computes. |
| OrderSearch.ComputeAutoDiff | quantools/processing/fractionaldiff.py:37-64 | The loop over `a`, `b` and `_valid` returns what the search specification returns. |
| FractionalDiff.OneDiff | quantools/processing/fractionaldiff.py:66-77 | A given order yields `_diff` at that order. Otherwise, on success the series passes the oracle and is either X at order 0 or X differenced at an order in (0, 4). A failure is NoValidOrder on a series the oracle rejected. |
| FractionalDiff.DiffColumns | quantools/processing/fractionaldiff.py:103-112 | On success there is one series and one order per column. |
| FractionalDiff.DiffColumnsColumn | quantools/processing/fractionaldiff.py:103-112 | On success, column i and order i are what `_1D_diff` gives for column i alone. |
| FractionalDiff.DiffColumnsFirstFailure | quantools/processing/fractionaldiff.py:103-106 | A failure is the error of some column, and every column before it succeeds. |
| FractionalDiff.DiffColumnsAllSucceed | quantools/processing/fractionaldiff.py:101-112 | When every column succeeds on its own, the loop succeeds. |
| FractionalDiff.DiffEachColumn | quantools/processing/fractionaldiff.py:101-112 | The loop with its None-initialised `X_diff` and `orders` computes `DiffColumns`. |
| TableSearch.TableStationary | quantools/processing/fractionaldiff.py:48 | `isStationnary` on a one-column Table under an integer index fails with KeyError exactly when row 0 is gone after `dropna()`. Otherwise it is the oracle's verdict. |
| TableSearch.TableDiffSeries | quantools/processing/fractionaldiff.py:24 | `_diff` on such a Table fails with KeyError exactly when the table has no rows, because `X.copy(deep=True)` is scanned again. Otherwise it is `_diff` of the column. |
| TableSearch.TableBisect | quantools/processing/fractionaldiff.py:51-60 | The loop on such a Table returns its start state when the bracket is already narrower than `precision`. Otherwise it raises KeyError, either on the copy or on the first midpoint's test. |
| TableSearch.DiffLosesRowZero | quantools/processing/fractionaldiff.py:24-33 | At every order the differenced series keeps the input's length and has position 0 missing, so its `dropna()` has no row labelled 0. |
| TableSearch.FirstMidpointRaises | quantools/processing/fractionaldiff.py:51-54 | On a one-column Table with rows under an integer index, the loop raises KeyError at its first midpoint. It returns normally only when `precision` exceeds 4 and the body never runs. |
| TableSearch.TableAutoDiff | quantools/processing/fractionaldiff.py:47-64 | `_autodiff` on a one-column Table under an integer index: KeyError when the first value is missing, the column unchanged with order 0 when the oracle accepts it, and otherwise KeyError, or NoValidOrder when `precision` exceeds 4. |
| FractionalDiff.TableOneDiff | quantools/processing/fractionaldiff.py:66-77 | `_1D_diff` on a one-column Table. Under a datetime index it is `_1D_diff` on the column. Under an integer index a fixed order fails exactly on a table without rows, and the search succeeds only with the column unchanged at order 0. Every success agrees with `_1D_diff` on the column. |
| FractionalDiff.TableDiff | quantools/processing/fractionaldiff.py:117-119 | A one-column Table keeps its column name and fails exactly when `TableOneDiff` does, with its error. Whatever succeeds agrees with `_1D_diff` on the column. A Table with no columns fails in the search. |
| FractionalDiff.Dispatch | quantools/processing/fractionaldiff.py:97-122 | A multi-column input gives a frame with one column and one order per input column. A series or Table gives one order. Any other shape, a one-column DataFrame included, raises ValueError. |
| FractionalDiff.Apply | quantools/processing/fractionaldiff.py:91-124 | An unknown method and a non-positive fixed order are refused before any column is touched. The orders are returned exactly when `return_order` is set. |
| FractionalDiff.ApplyMultiColumn | quantools/processing/fractionaldiff.py:97-115 | Multi-column input gives one output column and one order per input column, in input order. Column i is `_1D_diff` of input column i and is named after it, with `_stationnarized` appended exactly when `rename` is set. Any failure is some column's failure. |
| FractionalDiff.ApplyFixedOrder | quantools/processing/fractionaldiff.py:97-115 | In the model, a fixed positive order never fails on a multi-column input (see Left out, FractionalDiff.ApplyFixedOrder). Every column is differenced at it, and every entry of `orders` is that order. |
| FractionalDiff.ApplyOneColumnTable | quantools/processing/fractionaldiff.py:117-124 | A one-column Table yields a one-column frame under the column's own name and a one-element order list, or `TableOneDiff`'s error. Under an integer index, the search on a column whose row 0 is present and that the oracle rejects raises KeyError when `precision` is at most 4. Above 4 it fails with NoValidOrder. |
| FractionalDiff.ApplySingleSeries | quantools/processing/fractionaldiff.py:117-124 | A Series or TableSeries yields a series of the same name and a one-element order list. `return_order` only decides whether that list is returned. |
| FractionalDiff.ApplyRejectsShape | quantools/processing/fractionaldiff.py:97-122 | Any other input, including a plain one-column DataFrame, raises ValueError. |
| FractionalDiff.FrameInFrameOut | quantools/processing/fractionaldiff.py:97-119 | A frame or Table input that succeeds gives a frame with one column per input column. Column i is `_1D_diff` of input column i, under its own name when not renaming. |
| FractionalDiff.Call | quantools/processing/fractionaldiff.py:79-124 | The method computes exactly `Apply`. |
| FractionalDiff.DiffColumnsStep | quantools/processing/fractionaldiff.py:103-112 | One more iteration extends the accumulated columns and orders by column k, or stops at its error. |
| FractionalDiff.DiffColumnsPrefixFailure | quantools/processing/fractionaldiff.py:103-106 | A failure on the first k columns is the failure of the whole loop. |
| TableRules.LastSegment | quantools/table/_table.py:143 | The file type is the dot-free suffix that is the whole path or follows its last dot. |
| TableRules.LastSegmentAfterDot | quantools/table/_table.py:143 | `base.ext` has type `ext` for every dot-free `ext`. |
| TableRules.CheckFileType | quantools/table/_table.py:142-145 | A path is accepted exactly when its type is one of csv, json, excel, txt. Otherwise the error names the type. |
| TableRules.FileTypeByLastDot | quantools/table/table.py:40-43 | Only the part after the last dot decides, and a bare authorized name like `csv` is accepted. |
| TableRules.LooksLikeDate | quantools/table/_table.py:190-193 | A string taken for a date has at least ten characters, with digits first, second and tenth. |
| TableRules.MatchesAtStartPositional | quantools/table/_table.py:191-193 | The prefix matcher agrees with a position-by-position reading of the pattern. |
| TableRules.MatchIgnoresSuffix | quantools/table/_table.py:191-193 | `re.match` is anchored only at the start, so text after a date does not matter. |
| TableRules.DatePatternsDisjoint | quantools/table/_table.py:191-193 | The two date patterns never both match: they differ in the fifth character. |
| TableRules.IsoDateAccepted | quantools/table/_table.py:191 | Example of the date test: `2021-03-04` is taken for a date. |
| TableRules.DayFirstDateAccepted | quantools/table/_table.py:191-193 | Example of the date test: `04/03/2021` is taken for a date. |
| TableRules.DatesRejected | quantools/table/_table.py:191-193 | Example of the date test: `2021/03/04` and ` 2021-03-04` are not taken for dates. |
| TableRules.Qualifies | quantools/table/_table.py:190-211 | A first value selects its column exactly when it is a date string, an int above 1e9, or a datetime value. Each case has its own conversion. |
| TableRules.FirstValue | quantools/table/_table.py:189 | A column without rows has no first value. A numeric column's first value is neither a string nor a Python int. |
| TableRules.ScanFrom | quantools/table/_table.py:186-213 | The result is the first qualifying column, with every earlier column passed over. Otherwise it is the error of the first column without a first value, or None when every column is passed over. |
| TableRules.FindDatetimeColumn | quantools/table/table.py:83-110 | The loop with its `found` flag and `break` computes `ScanFrom`. |
| TableRules.Construct | quantools/table/_table.py:186-213 | The scan runs only with `ts` set and an index not of datetime dtype. The column that becomes the index is the first one whose first value qualifies, every earlier column passed over, and the index carries that value's conversion. The column is removed from the columns. A failure is the KeyError of the first column without a first value, every earlier column passed over. Without a chosen column, every column was passed over. |
| TableRules.ConstructIdempotent | quantools/table/_table.py:122-124 | Rebuilding a Table from its own columns and index changes nothing. This covers only a rebuild from the same columns and index. A frame derived by `dropna` that has lost row 0 makes the scan raise (`TableSearch`). |
| TableRules.Load | quantools/table/_table.py:142-170 | A path is checked for its type before it is read. An unsupported type raises ValueError. A json path raises TypeError, because `pd.read_json` is passed `header`. Any other path is read and scanned. |
| TableRules.RunConstructor | quantools/table/table.py:40-110 | The constructor body computes `Load`. |
| TableRules.ScanFrame | quantools/table/_table.py:186-213 | The scan part of the constructor computes `Construct`. |
| TableRules.NumericColumns | quantools/table/_table.py:235 | The selection has no more columns than the table, and is empty when no column is numeric. |
| TableRules.NumericColumnsSingleton | quantools/table/_table.py:235 | A numeric column is selected under its own name with its values, and any other column is not selected. |
| TableRules.NumericColumnsAppend | quantools/table/_table.py:235 | Selecting from two joined blocks of columns selects from each, joined in table order. With the singleton cases this fixes the selection for every table. |
| TableRules.NumericScanFindsNothing | quantools/table/_table.py:186-211 | Scanning numeric columns never moves one into the index. It fails exactly when some column has no rows. |
| TableRules.WriteBack | quantools/table/_table.py:258 | Write-back keeps the number of columns. |
| TableRules.WriteBackShape | quantools/table/_table.py:258 | Write-back keeps the number of columns and every column's name and kind, and leaves non-numeric columns untouched. |
| TableRules.WriteBackNumeric | quantools/table/_table.py:258 | The numeric columns read back after write-back are the differenced series, in order, under their old names. |
| Stationnarization.Stationnarized | quantools/table/_table.py:235-259 | The flag ends up set exactly when it was set before or the call was in place. The columns change only on an in-place success, and their number never changes. |
| Stationnarization.NotInplaceLeavesTable | quantools/table/_table.py:239-247 | Not in place, the table keeps its columns and flag, and the engine's result or error is passed on. |
| Stationnarization.SingleColumnSearchRaises | quantools/table/_table.py:235-259 | A table with one numeric column under an integer index, searched for an order with `precision` at most 4, raises KeyError when that column's row 0 is present and the oracle rejects it. Its columns stay as they were, in place or not. Above 4 the search fails with NoValidOrder instead. A missing row 0 raises KeyError before the oracle is consulted (`TableSearch.TableAutoDiff`). |
| Stationnarization.InplaceOverwritesNumericColumns | quantools/table/_table.py:249-259 | In place, the flag is set even if the engine fails. A failure leaves the columns unchanged. A success returns None and replaces numeric column j with `_1D_diff` of its old values, other columns unchanged. |
| TableModel.SelectNumeric | quantools/table/_table.py:235 | The selection is the numeric columns. It fails exactly when the index is not of datetime dtype and a numeric column has no rows, because the constructor runs again. |
| TableModel.Table.Init | quantools/table/_table.py:172-173 | A new table is neither stationary nor normalized. |
| TableModel.Table.New | quantools/table/_table.py:142-213 | A new Table has the columns and index `Load` computes, or fails with its error. |
| TableModel.Table.Stationnarize | quantools/table/_table.py:227-259 | The new columns and flag and the return value are those of `Stationnarized` on the numeric columns passed as a Table under the table's own index, so a single numeric column goes through `TableOneDiff`. The index and `is_normalized` are unchanged. |
| LegacyTableModel.Wrap | quantools/table/table.py:15-24 | `return_Table` fails only on a frame or series result under a non-datetime index. Only a frame or series becomes a new Table. |
| LegacyTableModel.WrapKeepsColumns | quantools/table/table.py:15-24 | `return_Table` turns a frame or series into a Table with the same columns and index. It fails only on a result without rows under a non-datetime index. A tuple `(X_diff, orders)`, whatever the orders, and None pass unchanged. |
| LegacyTableModel.ReturnTable | quantools/table/table.py:15-24 | The method returns a fresh Table that represents `Wrap`, or the unwrapped value. |
| LegacyTableModel.Table.Init | quantools/table/table.py:70-71 | A new table is neither stationary nor normalized. |
| LegacyTableModel.Table.New | quantools/table/table.py:40-110 | A new Table has the columns and index `Load` computes, or fails with its error. |
| LegacyTableModel.Table.Stationnarize | quantools/table/table.py:124-157 | The numeric columns are passed as a plain DataFrame, so a table with at most one numeric column raises ValueError. The new state is that of `Stationnarized`, and the return value is `Wrap` of its result. |

## Left out

- The unit-root test (`adfuller` and its 0.05 threshold) is an oracle parameter. It is never interpreted, and its exceptions are not modelled. The one exception modelled is the search on a Table with no column, which becomes OracleFailure.
- Floating point: every computation is on exact reals. `scipy.special.binom` is modelled by its ratio recurrence, which equals the gamma-function definition in exact arithmetic at every order that is not a negative whole number. At negative whole orders scipy returns NaN, which is not modelled. No caller reaches them: a fixed order is positive and the search's midpoints lie in (0, 4).
- DiffOperator.Diff: the window size is fixed at 10, the default. No caller in the core passes another, and a window size below 1 is not modelled.
- OrderSearch.ComputeAutoDiff: requires `precision` > 0 unless the series is already stationary. The source loops forever otherwise.
- FractionalDiff.Call: requires the same condition for every column it would search (`Halts`), for the same reason. On a one-column Table under an integer index the source would stop with KeyError even without it.
- FractionalDiff.Apply: the `method` argument of `_1D_diff` is unused in the source and is not passed on. Which pandas class holds the result (DataFrame, Table, TableSeries) is reduced to frame or series.
- `assert` statements disappear under `python -O`. The model always performs the two checks.
- Verbose printing, memory usage and the logging calls are not modelled.
- Reading files is a parameter `Reader`. It is not modelled, and neither are the chunked reading of files over 100 MB (which yields an iterator, not a frame), the `header` argument of the csv and txt readers, or a missing file (`os.path.getsize`). A json path is modelled as the TypeError it raises.
- TableRules.Construct: the converted index values (`pd.to_datetime`) and its parse failures are not modelled. Only the chosen column and its conversion are kept.
- TableRules.LooksLikeDate: `\d` is ASCII digits. Python's `re` also accepts other Unicode decimal digits.
- TableRules.FirstValue: `self[col][0]` is a label lookup. It is modelled as the first row, which is what it reads under the default integer index. Duplicate column names are not modelled.
- TableSearch.TableAutoDiff: only the default integer index and a datetime index are modelled. An index of other labels (strings, say) makes pandas fall back to the first position, which is not modelled.
- FractionalDiff.DiffColumns: `pd.concat` of the columns of a multi-column Table also builds a Table (through `_constructor_expanddim`), whose scan raises KeyError under an integer index when the table has no rows. That rebuild is not modelled. From `stationnarize` it is never reached, because selecting the numeric columns already fails on such a table.
- FractionalDiff.ApplyFixedOrder: never fails in the model. The source raises KeyError on a multi-column Table with no rows under an integer index, when `pd.concat` rebuilds the Table (the DiffColumns line above).
- TableRules.WriteBack: `self.loc[:, num.columns] = …` aligns by label. It is modelled by position, which coincides for unique column names.
- `normalize`, the indicators (sharpe, sortino, …), plotting, downloading, partial differencing and PCA are not modelled.
