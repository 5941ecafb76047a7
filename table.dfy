/**
  The Table class of quantools/table/_table.py: a frame that may move a date
  column into its index when built, and that can fractionally difference its
  numeric columns, returning the result or overwriting them in place.
 */
module TableModel {
  import opened Wrappers
  import opened Data
  import opened FractionalDiff
  import opened TableRules
  import opened Stationnarization

  /**
    `self.select_dtypes(include="number")`: pandas builds the selection
    through the class's own constructor, so the scan runs again over the
    numeric columns whenever the index is not of datetime dtype. It never
    moves a column, but fails when the numeric columns have no rows.
   */
  function SelectNumeric(cols: seq<Column>, index: Index): (r: Result<seq<NamedSeries>, Error>)
    ensures r.Success? ==> r.value == NumericColumns(cols)
    ensures r.Failure? ==> !index.IsDatetime()
    ensures r.Failure? ==> exists k :: 0 <= k < |NumericColumns(cols)| && |NumericColumns(cols)[k].values| == 0
    ensures !index.IsDatetime() && (exists k :: 0 <= k < |NumericColumns(cols)| && |NumericColumns(cols)[k].values| == 0) ==> r.Failure?
  {
    var num := NumericColumns(cols);
    NumericScanFindsNothing(num);
    if index.IsDatetime() then Success(num)
    else
      match ScanFrom(AsColumns(num), 0)
      case Failure(e) => Failure(e)
      case Success(_) => Success(num)
  }

  class Table {
    var columns: seq<Column>
    var index: Index
    var isStationary: bool
    var isNormalized: bool

    /** A table over the given columns and index, neither stationary nor normalized yet. */
    constructor Init(columns: seq<Column>, index: Index)
      ensures this.columns == columns && this.index == index
      ensures !isStationary && !isNormalized
    {
      this.columns := columns;
      this.index := index;
      isStationary := false;
      isNormalized := false;
    }

    /** `Table(data, ts=ts)` */
    static method New(data: Source, ts: bool, read: Reader) returns (r: Result<Table, Error>)
      ensures r.Failure? <==> Load(data, ts, read).Failure?
      ensures r.Failure? ==> r.error == Load(data, ts, read).error
      ensures r.Success? ==>
                && fresh(r.value)
                && r.value.columns == Load(data, ts, read).value.0
                && r.value.index == Load(data, ts, read).value.1
                && !r.value.isStationary && !r.value.isNormalized
    {
      var built := RunConstructor(data, ts, read);
      if built.Failure? {
        return Failure(built.error);
      }
      var t := new Table.Init(built.value.0, built.value.1);
      return Success(t);
    }

    /**
      `stationnarize(precision, method, order, return_order, inplace)`: the
      numeric columns go to the engine as a Table, without renaming.
     */
    method Stationnarize(precision: real, methodName: string, order: Option<real>, returnOrder: bool,
                         inplace: bool, adf: Oracle) returns (r: Result<Option<Output>, Error>)
      requires Halts(TableIn(NumericColumns(columns), index.IsDatetime()), precision, methodName, order, adf)
      modifies this
      ensures index == old(index) && isNormalized == old(isNormalized)
      ensures SelectNumeric(old(columns), old(index)).Failure? ==>
                r == Failure(SelectNumeric(old(columns), old(index)).error) &&
                columns == old(columns) && isStationary == old(isStationary)
      ensures SelectNumeric(old(columns), old(index)).Success? ==>
                var o := Stationnarized(old(columns), old(isStationary), TableIn(NumericColumns(old(columns)), old(index).IsDatetime()),
                                        precision, methodName, order, returnOrder, inplace, adf);
                r == o.result && columns == o.columns && isStationary == o.isStationary
    {
      var num := NumericColumns(columns);
      if !index.IsDatetime() {
        var rescan := FindDatetimeColumn(AsColumns(num));
        if rescan.Failure? {
          return Failure(rescan.error);
        }
      }
      if !inplace {
        var out := Call(TableIn(num, index.IsDatetime()), precision, methodName, order, returnOrder, false, adf);
        return if out.Failure? then Failure(out.error) else Success(Some(out.value));
      }
      isStationary := true;
      var diffed := Call(TableIn(num, index.IsDatetime()), precision, methodName, order, returnOrder, false, adf);
      if diffed.Failure? {
        return Failure(diffed.error);
      }
      FrameInFrameOut(TableIn(num, index.IsDatetime()), precision, methodName, order, returnOrder, false, adf);
      columns := WriteBack(columns, ValuesOf(diffed.value.Data().columns));
      return Success(None);
    }
  }
}
