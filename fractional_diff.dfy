/**
  The entry points of `FractionalDiff` (quantools/processing/fractionaldiff.py):
  `_1D_diff`, which runs one series through a fixed order or the order search,
  and `__call__`, which validates its options, dispatches on the shape of its
  input and runs every column of a multi-column frame on its own.
 */
module FractionalDiff {
  import opened Wrappers
  import opened Data
  import opened DiffOperator
  import opened OrderSearch
  import opened TableSearch

  /** `self.valid_method` */
  const ValidMethods: seq<string> := ["fixed-window"]

  /** Appended to every column name of a multi-column result when `rename` is set. */
  const Suffix: string := "_stationnarized"

  /** What `__call__` can be handed, told apart by the isinstance tests it performs. */
  datatype Input =
    | DataFrameIn(columns: seq<NamedSeries>)   // a plain pandas DataFrame
    | TableIn(columns: seq<NamedSeries>, datetimeIndex: bool)  // a quantools Table, and whether its index is of datetime dtype
    | SeriesIn(series: NamedSeries)            // a plain pandas Series
    | TableSeriesIn(series: NamedSeries)       // a quantools TableSeries
    | OtherIn                                  // anything else

  /** The differenced data: a frame of columns, or a single series. */
  datatype Diffed = FrameOut(columns: seq<NamedSeries>) | SeriesOut(series: NamedSeries)

  /** `X_diff`, or `(X_diff, orders)` when `return_order` is set. */
  datatype Output = Plain(data: Diffed) | WithOrders(data: Diffed, orders: seq<real>) {
    function Data(): Diffed {
      match this
      case Plain(d) => d
      case WithOrders(d, _) => d
    }
  }

  /** The multi-column branch: a frame or Table with more than one column. */
  predicate IsMultiColumn(X: Input) {
    (X.DataFrameIn? || X.TableIn?) && |X.columns| > 1
  }

  /** The columns whose order search `__call__` would run, in the order it runs them. */
  function Processed(X: Input): seq<NamedSeries> {
    match X
    case DataFrameIn(cs) => if |cs| > 1 then cs else []
    case TableIn(cs, _) => cs
    case SeriesIn(c) => [c]
    case TableSeriesIn(c) => [c]
    case OtherIn => []
  }

  /**
    The source never checks `precision`: with a non-positive precision the
    bisection loop never exits. A call terminates unless a search is started
    with such a precision on a series the oracle does not already accept.
   */
  predicate Halts(X: Input, precision: real, methodName: string, order: Option<real>, adf: Oracle) {
    methodName in ValidMethods && order.None? && precision <= 0.0 ==>
      forall i :: 0 <= i < |Processed(X)| ==> Stationary(adf, Processed(X)[i].values)
  }

  /**
    `_1D_diff(X, precision, method, order)`: the fixed order when one is
    given, the order search otherwise. The series returned by the search
    always passes the oracle: it is X itself at order 0, or X differenced at
    an order strictly inside (0, 4).
   */
  function OneDiff(X: Series, precision: real, order: Option<real>, adf: Oracle): (r: Result<(Series, real), Error>)
    requires order.Some? || precision > 0.0 || Stationary(adf, X)
    ensures order.Some? ==> r == Success((Diff(X, order.value, WindowSize), order.value))
    ensures order.None? && r.Success? ==>
              && Stationary(adf, r.value.0)
              && ((r.value.1 == 0.0 && r.value.0 == X) ||
                  (0.0 < r.value.1 < UpperBound && r.value.0 == Diff(X, r.value.1, WindowSize)))
    ensures order.None? && r.Failure? ==> r.error == NoValidOrder && !Stationary(adf, X)
  {
    if order.Some? then Success((Diff(X, order.value, WindowSize), order.value))
    else
      AutoDiffSound(X, precision, adf);
      match AutoDiff(X, precision, adf)
      case Success(c) => Success((c.series, c.order))
      case Failure(e) => Failure(e)
  }

  /**
    The loop of `__call__` over the columns, left to right: the differenced
    columns and their orders, one of each per column, or the error of the
    first column that fails.
   */
  function DiffColumns(cols: seq<NamedSeries>, precision: real, order: Option<real>, adf: Oracle)
    : (r: Result<(seq<Series>, seq<real>), Error>)
    requires order.Some? || precision > 0.0 || forall i :: 0 <= i < |cols| ==> Stationary(adf, cols[i].values)
    ensures r.Success? ==> |r.value.0| == |cols| && |r.value.1| == |cols|
    decreases |cols|
  {
    if cols == [] then Success(([], []))
    else
      var init := cols[..|cols| - 1];
      var last := cols[|cols| - 1];
      assert forall i :: 0 <= i < |init| ==> init[i] == cols[i];
      match DiffColumns(init, precision, order, adf)
      case Failure(e) => Failure(e)
      case Success(prev) =>
        match OneDiff(last.values, precision, order, adf)
        case Failure(e) => Failure(e)
        case Success(one) => Success((prev.0 + [one.0], prev.1 + [one.1]))
  }

  /** On success, column i and order i are those `_1D_diff` gives for column i alone. */
  lemma {:induction false} DiffColumnsColumn(cols: seq<NamedSeries>, precision: real, order: Option<real>, adf: Oracle, i: nat)
    requires order.Some? || precision > 0.0 || forall i :: 0 <= i < |cols| ==> Stationary(adf, cols[i].values)
    requires i < |cols| && DiffColumns(cols, precision, order, adf).Success?
    ensures var r := DiffColumns(cols, precision, order, adf);
            OneDiff(cols[i].values, precision, order, adf) == Success((r.value.0[i], r.value.1[i]))
  {
    var init := cols[..|cols| - 1];
    assert forall j :: 0 <= j < |init| ==> init[j] == cols[j];
    var prev := DiffColumns(init, precision, order, adf);
    assert prev.Success?;
    if i < |init| {
      DiffColumnsColumn(init, precision, order, adf, i);
    }
  }

  /** A failure is the error of some column, and every column before it succeeds. */
  lemma {:induction false} DiffColumnsFirstFailure(cols: seq<NamedSeries>, precision: real, order: Option<real>, adf: Oracle)
    requires order.Some? || precision > 0.0 || forall i :: 0 <= i < |cols| ==> Stationary(adf, cols[i].values)
    requires DiffColumns(cols, precision, order, adf).Failure?
    ensures exists i :: 0 <= i < |cols| && OneDiff(cols[i].values, precision, order, adf) == Failure(DiffColumns(cols, precision, order, adf).error)
                        && forall j :: 0 <= j < i ==> OneDiff(cols[j].values, precision, order, adf).Success?
  {
    var init := cols[..|cols| - 1];
    assert forall j :: 0 <= j < |init| ==> init[j] == cols[j];
    var prev := DiffColumns(init, precision, order, adf);
    if prev.Failure? {
      DiffColumnsFirstFailure(init, precision, order, adf);
      var i :| 0 <= i < |init| && OneDiff(init[i].values, precision, order, adf) == Failure(prev.error)
               && forall j :: 0 <= j < i ==> OneDiff(init[j].values, precision, order, adf).Success?;
      assert OneDiff(cols[i].values, precision, order, adf) == Failure(DiffColumns(cols, precision, order, adf).error);
    } else {
      forall j | 0 <= j < |init|
        ensures OneDiff(cols[j].values, precision, order, adf).Success?
      {
        DiffColumnsColumn(init, precision, order, adf, j);
      }
      assert OneDiff(cols[|init|].values, precision, order, adf) == Failure(DiffColumns(cols, precision, order, adf).error);
    }
  }

  /** When every column succeeds on its own, the loop succeeds. */
  lemma {:induction false} DiffColumnsAllSucceed(cols: seq<NamedSeries>, precision: real, order: Option<real>, adf: Oracle)
    requires order.Some? || precision > 0.0 || forall i :: 0 <= i < |cols| ==> Stationary(adf, cols[i].values)
    requires forall i :: 0 <= i < |cols| ==> OneDiff(cols[i].values, precision, order, adf).Success?
    ensures DiffColumns(cols, precision, order, adf).Success?
  {
    if cols != [] {
      var init := cols[..|cols| - 1];
      assert forall j :: 0 <= j < |init| ==> init[j] == cols[j];
      DiffColumnsAllSucceed(init, precision, order, adf);
      assert OneDiff(cols[|init|].values, precision, order, adf).Success?;
    }
  }

  /** `cols_name`: the input names, each followed by the suffix when `rename` is set. */
  function ColumnNames(cols: seq<NamedSeries>, rename: bool): (names: seq<string>)
    ensures |names| == |cols|
  {
    seq(|cols|, i requires 0 <= i < |cols| => if rename then cols[i].name + Suffix else cols[i].name)
  }

  /** Pairs names and series into the columns of a frame (`X_diff.columns = cols_name`). */
  function Named(names: seq<string>, series: seq<Series>): (cs: seq<NamedSeries>)
    requires |names| == |series|
    ensures |cs| == |names|
  {
    seq(|names|, i requires 0 <= i < |names| => NamedSeries(names[i], series[i]))
  }

  /**
    `_1D_diff` on a one-column Table. Under a datetime index the constructor's
    scan is skipped and the column is differenced like a series. Under the
    default integer index every frame derived from the Table is scanned again
    (module `TableSearch`): a fixed order fails only on a table without rows,
    and the search never returns a differenced column. Whatever succeeds
    agrees with `_1D_diff` on the column as a series.
   */
  function TableOneDiff(c: NamedSeries, datetimeIndex: bool, precision: real, order: Option<real>, adf: Oracle)
    : (r: Result<(Series, real), Error>)
    requires order.Some? || precision > 0.0 || Stationary(adf, c.values)
    ensures datetimeIndex ==> r == OneDiff(c.values, precision, order, adf)
    ensures r.Success? ==> r == OneDiff(c.values, precision, order, adf)
    ensures !datetimeIndex && order.Some? ==>
              (r.Failure? <==> |c.values| == 0) && (r.Failure? ==> r.error == MissingFirstValue(c.name))
    ensures !datetimeIndex && order.None? && r.Success? ==> r.value == (c.values, 0.0)
    ensures !datetimeIndex && order.None? && r.Failure? ==>
              r.error == (if KeepsRowZero(c.values) && precision > UpperBound then NoValidOrder else MissingFirstValue(c.name))
  {
    if datetimeIndex then OneDiff(c.values, precision, order, adf)
    else if order.Some? then
      match TableDiffSeries(c.values, order.value, c.name)
      case Failure(e) => Failure(e)
      case Success(d) => Success((d, order.value))
    else
      AutoDiffSound(c.values, precision, adf);
      match TableAutoDiff(c.values, precision, adf, c.name)
      case Failure(e) => Failure(e)
      case Success(cand) => Success((cand.series, cand.order))
  }

  /**
    `_1D_diff` applied to a whole Table of at most one column. A single
    column goes through `TableOneDiff` and keeps its name. With no column the
    fixed order yields an empty frame, while the search hands an empty frame to
    the unit-root test, which raises.
   */
  function TableDiff(cols: seq<NamedSeries>, datetimeIndex: bool, precision: real, order: Option<real>, adf: Oracle)
    : (r: Result<(seq<NamedSeries>, real), Error>)
    requires |cols| <= 1
    requires order.Some? || precision > 0.0 || forall i :: 0 <= i < |cols| ==> Stationary(adf, cols[i].values)
    ensures r.Success? ==> |r.value.0| == |cols|
    ensures r.Success? && |cols| == 1 ==>
              r.value.0[0].name == cols[0].name &&
              OneDiff(cols[0].values, precision, order, adf) == Success((r.value.0[0].values, r.value.1))
    ensures |cols| == 1 ==>
              (r.Failure? <==> TableOneDiff(cols[0], datetimeIndex, precision, order, adf).Failure?) &&
              (r.Failure? ==> r.error == TableOneDiff(cols[0], datetimeIndex, precision, order, adf).error)
    ensures |cols| == 0 && order.None? ==> r == Failure(OracleFailure)
  {
    if |cols| == 1 then
      match TableOneDiff(cols[0], datetimeIndex, precision, order, adf)
      case Failure(e) => Failure(e)
      case Success(one) => Success(([NamedSeries(cols[0].name, one.0)], one.1))
    else if order.Some? then Success(([], order.value))
    else Failure(OracleFailure)
  }

  /** Everything `__call__` computes once its options passed validation. */
  function Dispatch(X: Input, precision: real, order: Option<real>, rename: bool, adf: Oracle)
    : (r: Result<(Diffed, seq<real>), Error>)
    requires order.Some? || precision > 0.0 || forall i :: 0 <= i < |Processed(X)| ==> Stationary(adf, Processed(X)[i].values)
    ensures r.Success? && IsMultiColumn(X) ==> r.value.0.FrameOut? && |r.value.0.columns| == |r.value.1| == |X.columns|
    ensures r.Success? && !IsMultiColumn(X) ==> |r.value.1| == 1
    ensures (X.DataFrameIn? && |X.columns| <= 1) || X.OtherIn? ==> r == Failure(UnsupportedInput)
  {
    if IsMultiColumn(X) then
      assert Processed(X) == X.columns;
      match DiffColumns(X.columns, precision, order, adf)
      case Failure(e) => Failure(e)
      case Success(res) => Success((FrameOut(Named(ColumnNames(X.columns, rename), res.0)), res.1))
    else if X.SeriesIn? || X.TableSeriesIn? then
      assert Processed(X) == [X.series] && Processed(X)[0] == X.series;
      match OneDiff(X.series.values, precision, order, adf)
      case Failure(e) => Failure(e)
      case Success(one) => Success((SeriesOut(NamedSeries(X.series.name, one.0)), [one.1]))
    else if X.TableIn? then
      assert Processed(X) == X.columns;
      match TableDiff(X.columns, X.datetimeIndex, precision, order, adf)
      case Failure(e) => Failure(e)
      case Success(res) => Success((FrameOut(res.0), [res.1]))
    else Failure(UnsupportedInput)
  }

  /**
    `__call__(X, precision, method, order, return_order, rename)`: the method
    name and a fixed order are checked before any column is touched; the
    result is `X_diff`, or `(X_diff, orders)` when `return_order` is set.
   */
  function Apply(X: Input, precision: real, methodName: string, order: Option<real>,
                 returnOrder: bool, rename: bool, adf: Oracle): (r: Result<Output, Error>)
    requires Halts(X, precision, methodName, order, adf)
    ensures methodName !in ValidMethods ==> r == Failure(InvalidMethod)
    ensures methodName in ValidMethods && order.Some? && order.value <= 0.0 ==> r == Failure(NonPositiveOrder)
    ensures r.Success? ==> (r.value.WithOrders? <==> returnOrder)
  {
    if methodName !in ValidMethods then Failure(InvalidMethod)
    else if order.Some? && order.value <= 0.0 then Failure(NonPositiveOrder)
    else
      match Dispatch(X, precision, order, rename, adf)
      case Failure(e) => Failure(e)
      case Success(res) => Success(if returnOrder then WithOrders(res.0, res.1) else Plain(res.0))
  }

  /**
    Multi-column input: one output column and one order per input column, in
    input order; column i is `_1D_diff` of input column i alone and is named
    after it, with the suffix exactly when `rename` is set. A failure of the
    whole call is the failure of some column; `DiffColumnsFirstFailure` shows
    that every column before that one succeeds.
   */
  lemma ApplyMultiColumn(X: Input, precision: real, order: Option<real>, returnOrder: bool, rename: bool, adf: Oracle)
    requires IsMultiColumn(X) && Halts(X, precision, "fixed-window", order, adf)
    requires order.None? || order.value > 0.0
    ensures var r := Apply(X, precision, "fixed-window", order, returnOrder, rename, adf);
            var n := |X.columns|;
            r.Success? ==>
              && r.value.Data().FrameOut?
              && |r.value.Data().columns| == n
              && (returnOrder ==> |r.value.orders| == n)
              && forall i :: 0 <= i < n ==>
                   && r.value.Data().columns[i].name == (if rename then X.columns[i].name + Suffix else X.columns[i].name)
                   && (order.Some? || precision > 0.0 || Stationary(adf, X.columns[i].values))
                   && OneDiff(X.columns[i].values, precision, order, adf).Success?
                   && OneDiff(X.columns[i].values, precision, order, adf).value.0 == r.value.Data().columns[i].values
                   && (returnOrder ==> OneDiff(X.columns[i].values, precision, order, adf).value.1 == r.value.orders[i])
    ensures var r := Apply(X, precision, "fixed-window", order, returnOrder, rename, adf);
            r.Failure? ==>
              exists i :: 0 <= i < |X.columns| && (order.Some? || precision > 0.0 || Stationary(adf, X.columns[i].values))
                          && OneDiff(X.columns[i].values, precision, order, adf) == Failure(r.error)
  {
    assert "fixed-window" in ValidMethods;
    assert Processed(X) == X.columns;
    var all := DiffColumns(X.columns, precision, order, adf);
    if all.Success? {
      forall i | 0 <= i < |X.columns|
        ensures OneDiff(X.columns[i].values, precision, order, adf) == Success((all.value.0[i], all.value.1[i]))
      {
        DiffColumnsColumn(X.columns, precision, order, adf, i);
      }
    } else {
      DiffColumnsFirstFailure(X.columns, precision, order, adf);
    }
  }

  /**
    A fixed positive order is used for every column: each column is X
    differenced at that order, every entry of `orders` is that order, and
    the call cannot fail on a multi-column input.
   */
  lemma ApplyFixedOrder(X: Input, precision: real, d: real, rename: bool, adf: Oracle)
    requires IsMultiColumn(X) && d > 0.0
    ensures var r := Apply(X, precision, "fixed-window", Some(d), true, rename, adf);
            && r.Success?
            && r.value.orders == seq(|X.columns|, i => d)
            && r.value.data.FrameOut?
            && |r.value.data.columns| == |X.columns|
            && forall i :: 0 <= i < |X.columns| ==> r.value.data.columns[i].values == Diff(X.columns[i].values, d, WindowSize)
  {
    assert "fixed-window" in ValidMethods;
    DiffColumnsAllSucceed(X.columns, precision, Some(d), adf);
    var r := DiffColumns(X.columns, precision, Some(d), adf);
    forall i | 0 <= i < |X.columns|
      ensures OneDiff(X.columns[i].values, precision, Some(d), adf) == Success((r.value.0[i], r.value.1[i]))
    {
      DiffColumnsColumn(X.columns, precision, Some(d), adf, i);
    }
    assert r.value.1 == seq(|X.columns|, i => d);
  }

  /**
    A Series or TableSeries yields a series of the same name and a
    one-element order list; `return_order` only decides whether that list
    is returned beside the data.
   */
  lemma ApplySingleSeries(X: Input, precision: real, order: Option<real>, rename: bool, adf: Oracle)
    requires (X.SeriesIn? || X.TableSeriesIn?) && Halts(X, precision, "fixed-window", order, adf)
    requires order.None? || order.value > 0.0
    ensures var r := Apply(X, precision, "fixed-window", order, true, rename, adf);
            var one := OneDiff(X.series.values, precision, order, adf);
            && (r.Success? <==> one.Success?)
            && (r.Success? ==> r.value == WithOrders(SeriesOut(NamedSeries(X.series.name, one.value.0)), [one.value.1]))
            && (r.Failure? ==> r.error == one.error)
    ensures var r := Apply(X, precision, "fixed-window", order, true, rename, adf);
            var plain := Apply(X, precision, "fixed-window", order, false, rename, adf);
            (plain.Success? <==> r.Success?) && (plain.Success? ==> plain.value == Plain(r.value.data))
  {
    assert "fixed-window" in ValidMethods;
    assert Processed(X) == [X.series];
  }

  /**
    A one-column Table yields a one-column frame under the column's own name
    (`rename` is not applied on this branch) and a one-element order list, or
    the error of `TableOneDiff`: under an integer index, the search on a
    column the oracle does not already accept raises KeyError at its first
    midpoint.
   */
  lemma ApplyOneColumnTable(c: NamedSeries, datetimeIndex: bool, precision: real, order: Option<real>,
                            returnOrder: bool, rename: bool, adf: Oracle)
    requires order.Some? || precision > 0.0 || Stationary(adf, c.values)
    requires order.None? || order.value > 0.0
    ensures var r := Apply(TableIn([c], datetimeIndex), precision, "fixed-window", order, returnOrder, rename, adf);
            var one := TableOneDiff(c, datetimeIndex, precision, order, adf);
            && (r.Success? <==> one.Success?)
            && (r.Success? ==> r.value.Data() == FrameOut([NamedSeries(c.name, one.value.0)]))
            && (r.Success? && returnOrder ==> r.value.orders == [one.value.1])
            && (r.Failure? ==> r.error == one.error)
    ensures !datetimeIndex && order.None? && KeepsRowZero(c.values) && !Stationary(adf, c.values) && precision <= UpperBound ==>
              Apply(TableIn([c], datetimeIndex), precision, "fixed-window", order, returnOrder, rename, adf) == Failure(MissingFirstValue(c.name))
  {
    assert "fixed-window" in ValidMethods;
    assert Processed(TableIn([c], datetimeIndex)) == [c];
  }

  /**
    Anything that is neither a multi-column frame or Table, nor a Series,
    TableSeries or Table, is refused with ValueError; that includes a plain
    DataFrame with a single column.
   */
  lemma ApplyRejectsShape(X: Input, precision: real, order: Option<real>, returnOrder: bool, rename: bool, adf: Oracle)
    requires X.OtherIn? || (X.DataFrameIn? && |X.columns| <= 1)
    requires order.None? || order.value > 0.0
    ensures Halts(X, precision, "fixed-window", order, adf)
    ensures Apply(X, precision, "fixed-window", order, returnOrder, rename, adf) == Failure(UnsupportedInput)
  {
    assert "fixed-window" in ValidMethods;
    assert Processed(X) == [];
  }

  /**
    The column loop of `__call__`: `X_diff` and `orders` start as None, are
    set by the first column and extended by every later one; the first
    column whose search fails ends the call.
   */
  method DiffEachColumn(cols: seq<NamedSeries>, precision: real, order: Option<real>, adf: Oracle)
    returns (r: Result<(seq<Series>, seq<real>), Error>)
    requires |cols| > 0
    requires order.Some? || precision > 0.0 || forall i :: 0 <= i < |cols| ==> Stationary(adf, cols[i].values)
    ensures r == DiffColumns(cols, precision, order, adf)
  {
    var xDiff: Option<seq<Series>> := None;
    var acc: Option<seq<real>> := None;
    for col := 0 to |cols|
      invariant xDiff.None? <==> col == 0
      invariant acc.None? <==> col == 0
      invariant col > 0 ==> DiffColumns(cols[..col], precision, order, adf) == Success((xDiff.value, acc.value))
    {
      DiffColumnsStep(cols, col, precision, order, adf);
      var one := OneDiff(cols[col].values, precision, order, adf);
      if one.Failure? {
        DiffColumnsPrefixFailure(cols, col + 1, precision, order, adf);
        return Failure(one.error);
      }
      if xDiff.None? || acc.None? {
        assert [] + [one.value.0] == [one.value.0] && [] + [one.value.1] == [one.value.1];
        xDiff := Some([one.value.0]);
        acc := Some([one.value.1]);
      } else {
        xDiff := Some(xDiff.value + [one.value.0]);
        acc := Some(acc.value + [one.value.1]);
      }
    }
    assert cols[..|cols|] == cols;
    return Success((xDiff.value, acc.value));
  }

  /**
    A frame or Table in, a frame out: when the call succeeds on a frame-shaped
    input it returns a frame with one column per input column, column i being
    `_1D_diff` of input column i, under the input's own name unless `rename`.
   */
  lemma FrameInFrameOut(X: Input, precision: real, methodName: string, order: Option<real>,
                        returnOrder: bool, rename: bool, adf: Oracle)
    requires X.DataFrameIn? || X.TableIn?
    requires Halts(X, precision, methodName, order, adf)
    ensures var r := Apply(X, precision, methodName, order, returnOrder, rename, adf);
            r.Success? ==>
              && r.value.Data().FrameOut?
              && |r.value.Data().columns| == |X.columns|
              && forall i :: 0 <= i < |X.columns| ==>
                   && (!rename ==> r.value.Data().columns[i].name == X.columns[i].name)
                   && (order.Some? || precision > 0.0 || Stationary(adf, X.columns[i].values))
                   && OneDiff(X.columns[i].values, precision, order, adf).Success?
                   && r.value.Data().columns[i].values == OneDiff(X.columns[i].values, precision, order, adf).value.0
  {
    if methodName in ValidMethods && (order.None? || order.value > 0.0) {
      if IsMultiColumn(X) {
        ApplyMultiColumn(X, precision, order, returnOrder, rename, adf);
      } else if X.TableIn? {
        assert Processed(X) == X.columns;
      }
    }
  }

  /** `__call__` as written: validation, dispatch on the input, then the optional order list. */
  method Call(X: Input, precision: real, methodName: string, order: Option<real>,
              returnOrder: bool, rename: bool, adf: Oracle) returns (r: Result<Output, Error>)
    requires Halts(X, precision, methodName, order, adf)
    ensures r == Apply(X, precision, methodName, order, returnOrder, rename, adf)
  {
    if methodName !in ValidMethods {
      return Failure(InvalidMethod);
    }
    if order.Some? && order.value <= 0.0 {
      return Failure(NonPositiveOrder);
    }
    var data: Diffed;
    var orders: seq<real>;
    if (X.DataFrameIn? || X.TableIn?) && |X.columns| > 1 {
      assert Processed(X) == X.columns;
      var colsName := ColumnNames(X.columns, rename);
      var all := DiffEachColumn(X.columns, precision, order, adf);
      if all.Failure? {
        return Failure(all.error);
      }
      data := FrameOut(Named(colsName, all.value.0));
      orders := all.value.1;
    } else if X.TableIn? {
      assert Processed(X) == X.columns;
      var t := TableDiff(X.columns, X.datetimeIndex, precision, order, adf);
      if t.Failure? {
        return Failure(t.error);
      }
      data := FrameOut(t.value.0);
      orders := [t.value.1];
    } else if X.SeriesIn? || X.TableSeriesIn? {
      assert Processed(X)[0] == X.series;
      var one := OneDiff(X.series.values, precision, order, adf);
      if one.Failure? {
        return Failure(one.error);
      }
      data := SeriesOut(NamedSeries(X.series.name, one.value.0));
      orders := [one.value.1];
    } else {
      return Failure(UnsupportedInput);
    }
    r := Success(if returnOrder then WithOrders(data, orders) else Plain(data));
  }

  /** One more column: the loop over `cols[..k+1]` is the loop over `cols[..k]` followed by column k. */
  lemma DiffColumnsStep(cols: seq<NamedSeries>, k: nat, precision: real, order: Option<real>, adf: Oracle)
    requires k < |cols|
    requires order.Some? || precision > 0.0 || forall i :: 0 <= i < |cols| ==> Stationary(adf, cols[i].values)
    ensures var prev := DiffColumns(cols[..k], precision, order, adf);
            var one := OneDiff(cols[k].values, precision, order, adf);
            DiffColumns(cols[..k + 1], precision, order, adf) ==
              if prev.Failure? then prev
              else if one.Failure? then Failure(one.error)
              else Success((prev.value.0 + [one.value.0], prev.value.1 + [one.value.1]))
    ensures k == 0 ==> DiffColumns(cols[..k], precision, order, adf) == Success(([], []))
  {
    assert cols[..k + 1][..k] == cols[..k];
    assert cols[..k + 1][k] == cols[k];
  }

  /** A failure on a prefix of the columns is the failure of the whole loop. */
  lemma {:induction false} DiffColumnsPrefixFailure(cols: seq<NamedSeries>, k: nat, precision: real, order: Option<real>, adf: Oracle)
    requires 0 < k <= |cols|
    requires order.Some? || precision > 0.0 || forall i :: 0 <= i < |cols| ==> Stationary(adf, cols[i].values)
    requires DiffColumns(cols[..k], precision, order, adf).Failure?
    ensures DiffColumns(cols, precision, order, adf) == DiffColumns(cols[..k], precision, order, adf)
    decreases |cols| - k
  {
    if k < |cols| {
      assert cols[..k + 1][..k] == cols[..k];
      DiffColumnsPrefixFailure(cols, k + 1, precision, order, adf);
    } else {
      assert cols[..k] == cols;
    }
  }
}
