/**
  The older Table class of quantools/table/table.py. Its constructor follows
  the same rules as the current one, but it does not declare its own
  constructor to pandas, so `select_dtypes` hands the engine a plain
  DataFrame; and `stationnarize` is wrapped by `return_Table`, which turns a
  frame or series result back into a Table.
 */
module LegacyTableModel {
  import opened Wrappers
  import opened Data
  import opened FractionalDiff
  import opened TableRules
  import opened Stationnarization

  /** The value-level result of `return_Table`: a new table's contents, a value passed through, or None. */
  datatype Wrapped = NewTable(columns: seq<Column>, index: Index) | Passed(value: Output) | Nothing

  /** A result seen as a frame: a frame's columns, or a series as a one-column frame. */
  function ResultColumns(d: Diffed): (ns: seq<NamedSeries>)
    ensures d.FrameOut? ==> ns == d.columns
    ensures d.SeriesOut? ==> ns == [d.series]
  {
    match d
    case FrameOut(cs) => cs
    case SeriesOut(s) => [s]
  }

  /**
    `return_Table` around `stationnarize`: a DataFrame or Series result is
    passed to the constructor (which scans it again under the table's own
    index); a tuple `(X_diff, orders)` or None is returned unchanged.
   */
  function Wrap(result: Option<Output>, datetimeIndex: bool): (r: Result<Wrapped, Error>)
    ensures r.Failure? ==> !datetimeIndex && result.Some? && result.value.Plain?
    ensures r.Success? && r.value.NewTable? ==> result.Some? && result.value.Plain?
  {
    match result
    case None => Success(Nothing)
    case Some(out) =>
      if out.WithOrders? then Success(Passed(out))
      else
        match Construct(Frame(AsColumns(ResultColumns(out.data)), datetimeIndex), true)
        case Failure(e) => Failure(e)
        case Success(t) => Success(NewTable(t.0, t.1))
  }

  /**
    Wrapping a differenced frame keeps its columns and index as they are:
    the scan never moves a numeric column into the index. It fails only on
    a result without rows under an index that is not of datetime dtype.
   */
  lemma WrapKeepsColumns(d: Diffed, orders: seq<real>, datetimeIndex: bool)
    ensures var w := Wrap(Some(Plain(d)), datetimeIndex);
            && (w.Success? ==> w.value == NewTable(AsColumns(ResultColumns(d)), GivenIndex(datetimeIndex)))
            && (w.Failure? <==> !datetimeIndex && exists k :: 0 <= k < |ResultColumns(d)| && |ResultColumns(d)[k].values| == 0)
    ensures Wrap(Some(WithOrders(d, orders)), datetimeIndex) == Success(Passed(WithOrders(d, orders)))
    ensures Wrap(None, datetimeIndex) == Success(Nothing)
  {
    NumericScanFindsNothing(ResultColumns(d));
  }

  class Table {
    var columns: seq<Column>
    var index: Index
    var isStationary: bool
    var isNormalized: bool

    /** A table over the given columns and index, neither stationary nor normalized yet. */
    constructor Init(columns: seq<Column>, index: Index)
      ensures this.columns == columns && this.index == index
      ensures !isStationary && !isNormalized
    {
      this.columns := columns;
      this.index := index;
      isStationary := false;
      isNormalized := false;
    }

    /** `Table(data, ts=ts)` */
    static method New(data: Source, ts: bool, read: Reader) returns (r: Result<Table, Error>)
      ensures r.Failure? <==> Load(data, ts, read).Failure?
      ensures r.Failure? ==> r.error == Load(data, ts, read).error
      ensures r.Success? ==>
                && fresh(r.value)
                && r.value.columns == Load(data, ts, read).value.0
                && r.value.index == Load(data, ts, read).value.1
                && !r.value.isStationary && !r.value.isNormalized
    {
      var built := RunConstructor(data, ts, read);
      if built.Failure? {
        return Failure(built.error);
      }
      var t := new Table.Init(built.value.0, built.value.1);
      return Success(t);
    }

    /**
      `stationnarize(precision, method, order, return_order, inplace)`: the
      numeric columns go to the engine as a plain DataFrame, without
      renaming, and the result goes through `return_Table`.
     */
    method Stationnarize(precision: real, methodName: string, order: Option<real>, returnOrder: bool,
                         inplace: bool, adf: Oracle) returns (r: Result<Returned, Error>)
      requires Halts(DataFrameIn(NumericColumns(columns)), precision, methodName, order, adf)
      modifies this
      ensures index == old(index) && isNormalized == old(isNormalized)
      ensures var o := Stationnarized(old(columns), old(isStationary), DataFrameIn(NumericColumns(old(columns))),
                                      precision, methodName, order, returnOrder, inplace, adf);
              && columns == o.columns && isStationary == o.isStationary
              && (o.result.Failure? ==> r == Failure(o.result.error))
              && (o.result.Success? ==>
                    var w := Wrap(o.result.value, old(index).IsDatetime());
                    && (r.Success? <==> w.Success?)
                    && (r.Failure? ==> r.error == w.error)
                    && (r.Success? ==> Represents(r.value, w.value) && (r.value.AsTable? ==> fresh(r.value.table))))
    {
      var num := NumericColumns(columns);
      var result: Option<Output>;
      if !inplace {
        var out := Call(DataFrameIn(num), precision, methodName, order, returnOrder, false, adf);
        if out.Failure? {
          return Failure(out.error);
        }
        result := Some(out.value);
      } else {
        isStationary := true;
        var diffed := Call(DataFrameIn(num), precision, methodName, order, returnOrder, false, adf);
        if diffed.Failure? {
          return Failure(diffed.error);
        }
        FrameInFrameOut(DataFrameIn(num), precision, methodName, order, returnOrder, false, adf);
        columns := WriteBack(columns, ValuesOf(diffed.value.Data().columns));
        result := None;
      }
      r := ReturnTable(result, index.IsDatetime());
    }
  }

  /** What `return_Table` hands back: a new Table, the unwrapped value, or None. */
  datatype Returned = AsTable(table: Table) | Unwrapped(value: Output) | NoValue

  /** The returned value carries exactly the wrapped contents; a new table starts with both flags unset. */
  predicate Represents(ret: Returned, w: Wrapped)
    reads if ret.AsTable? then {ret.table} else {}
  {
    match w
    case NewTable(cs, idx) =>
      ret.AsTable? && ret.table.columns == cs && ret.table.index == idx &&
      !ret.table.isStationary && !ret.table.isNormalized
    case Passed(out) => ret == Unwrapped(out)
    case Nothing => ret == NoValue
  }

  /** `return_Table` applied to a result computed under an index of datetime dtype or not. */
  method ReturnTable(result: Option<Output>, datetimeIndex: bool) returns (r: Result<Returned, Error>)
    ensures var w := Wrap(result, datetimeIndex);
            && (r.Success? <==> w.Success?)
            && (r.Failure? ==> r.error == w.error)
            && (r.Success? ==> Represents(r.value, w.value) && (r.value.AsTable? ==> fresh(r.value.table)))
  {
    if result.None? {
      return Success(NoValue);
    }
    if result.value.WithOrders? {
      return Success(Unwrapped(result.value));
    }
    var built := ScanFrame(Frame(AsColumns(ResultColumns(result.value.data)), datetimeIndex), true);
    if built.Failure? {
      return Failure(built.error);
    }
    var t := new Table.Init(built.value.0, built.value.1);
    return Success(AsTable(t));
  }
}
