/**
  What `Table.stationnarize` does once it holds the numeric columns: hand
  them to `FractionalDiff.__call__` without renaming, and either return the
  engine's result or, in place, set the stationarity flag and write the
  differenced series back over the numeric columns.
 */
module Stationnarization {
  import opened Wrappers
  import opened Data
  import opened OrderSearch
  import opened TableSearch
  import opened FractionalDiff
  import opened TableRules

  /** The return value of `stationnarize` and the table's columns and flag afterwards. */
  datatype Outcome = Outcome(result: Result<Option<Output>, Error>, columns: seq<Column>, isStationary: bool)

  /** The series of a list of named series, in order. */
  function ValuesOf(ns: seq<NamedSeries>): (vs: seq<Series>)
    ensures |vs| == |ns|
    ensures forall k :: 0 <= k < |ns| ==> vs[k] == ns[k].values
  {
    seq(|ns|, k requires 0 <= k < |ns| => ns[k].values)
  }

  /** The engine input is the table's numeric columns, as a Table or as a plain frame. */
  predicate IsNumericInput(cols: seq<Column>, X: Input) {
    (X.TableIn? || X.DataFrameIn?) && X.columns == NumericColumns(cols)
  }

  /**
    `stationnarize(precision, method, order, return_order, inplace)` from the
    engine call on: not in place, the table is left alone and the engine's
    result is returned; in place, the flag is set before the engine runs
    (and stays set if it fails), and on success the numeric columns are
    overwritten and nothing is returned.
   */
  function Stationnarized(cols: seq<Column>, isStationary: bool, X: Input, precision: real, methodName: string,
                          order: Option<real>, returnOrder: bool, inplace: bool, adf: Oracle): (o: Outcome)
    requires IsNumericInput(cols, X)
    requires Halts(X, precision, methodName, order, adf)
    ensures o.isStationary == (isStationary || inplace)
    ensures o.result.Failure? || !inplace ==> o.columns == cols
    ensures |o.columns| == |cols|
  {
    var out := Apply(X, precision, methodName, order, returnOrder, false, adf);
    if !inplace then
      Outcome(if out.Failure? then Failure(out.error) else Success(Some(out.value)), cols, isStationary)
    else if out.Failure? then
      Outcome(Failure(out.error), cols, true)
    else
      FrameInFrameOut(X, precision, methodName, order, returnOrder, false, adf);
      Outcome(Success(None), WriteBack(cols, ValuesOf(out.value.Data().columns)), true)
  }

  /** Not in place: the table keeps its columns and flag, and the engine's result is passed on. */
  lemma NotInplaceLeavesTable(cols: seq<Column>, isStationary: bool, X: Input, precision: real, methodName: string,
                              order: Option<real>, returnOrder: bool, adf: Oracle)
    requires IsNumericInput(cols, X)
    requires Halts(X, precision, methodName, order, adf)
    ensures var o := Stationnarized(cols, isStationary, X, precision, methodName, order, returnOrder, false, adf);
            var out := Apply(X, precision, methodName, order, returnOrder, false, adf);
            && o.columns == cols && o.isStationary == isStationary
            && (o.result.Success? <==> out.Success?)
            && (o.result.Success? ==> o.result.value == Some(out.value))
            && (o.result.Failure? ==> o.result.error == out.error)
  {
  }

  /**
    In place: the flag is set whatever the engine does; a failure leaves the
    columns as they were, and a success returns nothing and leaves every
    non-numeric column as it was, while numeric column j now holds
    `_1D_diff` of its old values under its old name.
   */
  lemma InplaceOverwritesNumericColumns(cols: seq<Column>, isStationary: bool, X: Input, precision: real,
                                        methodName: string, order: Option<real>, returnOrder: bool, adf: Oracle)
    requires IsNumericInput(cols, X)
    requires Halts(X, precision, methodName, order, adf)
    ensures var o := Stationnarized(cols, isStationary, X, precision, methodName, order, returnOrder, true, adf);
            var num := NumericColumns(cols);
            && o.isStationary
            && (o.result.Failure? ==> o.columns == cols)
            && (o.result.Success? ==>
                  && o.result.value.None?
                  && |o.columns| == |cols|
                  && (forall k :: 0 <= k < |cols| ==> o.columns[k].name == cols[k].name)
                  && (forall k :: 0 <= k < |cols| && !cols[k].data.Numbers? ==> o.columns[k] == cols[k])
                  && |NumericColumns(o.columns)| == |num|
                  && forall j :: 0 <= j < |num| ==>
                       && (order.Some? || precision > 0.0 || Stationary(adf, num[j].values))
                       && OneDiff(num[j].values, precision, order, adf).Success?
                       && NumericColumns(o.columns)[j] ==
                            NamedSeries(num[j].name, OneDiff(num[j].values, precision, order, adf).value.0))
  {
    var out := Apply(X, precision, methodName, order, returnOrder, false, adf);
    if out.Success? {
      FrameInFrameOut(X, precision, methodName, order, returnOrder, false, adf);
      WriteBackShape(cols, ValuesOf(out.value.Data().columns));
      WriteBackNumeric(cols, ValuesOf(out.value.Data().columns));
    }
  }
  /**
    A table with a single numeric column under an integer index, searched
    for an order: unless that column already passes the oracle, the engine
    raises KeyError at the first midpoint (the differenced column rebuilt as
    a Table has lost row 0), so the table keeps its columns whether or not
    the call was in place.
   */
  lemma SingleColumnSearchRaises(cols: seq<Column>, isStationary: bool, c: NamedSeries, precision: real,
                                 returnOrder: bool, inplace: bool, adf: Oracle)
    requires NumericColumns(cols) == [c]
    requires precision > 0.0 || Stationary(adf, c.values)
    requires KeepsRowZero(c.values) && !Stationary(adf, c.values) && precision <= UpperBound
    ensures var o := Stationnarized(cols, isStationary, TableIn([c], false), precision, "fixed-window",
                                    None, returnOrder, inplace, adf);
            && o.result == Failure(MissingFirstValue(c.name))
            && o.columns == cols
            && o.isStationary == (isStationary || inplace)
  {
    ApplyOneColumnTable(c, false, precision, None, returnOrder, false, adf);
  }
}
