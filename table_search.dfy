/**
  `_diff` and `_autodiff` run on a one-column quantools Table instead of a
  series (quantools/processing/fractionaldiff.py with
  quantools/table/_table.py).

  Every frame pandas derives from a Table (`copy`, `dropna`, the result of
  `rolling` or `shift`) is built by `Table.__init__` again, with `ts` left
  set. Unless the index is of datetime dtype, that constructor's scan reads
  `self[col][0]` from the derived table. Under the default integer index
  this is the row labelled 0, the first row of the original table, so a
  derived table without that row raises KeyError (`MissingFirstValue`).
  The first value of a numeric column never qualifies as a date, so the scan
  moves nothing.
 */
module TableSearch {
  import opened Wrappers
  import opened Data
  import opened DiffOperator
  import opened OrderSearch

  /** The row labelled 0 is still there after `dropna()`: the series has a first value and it is present. */
  predicate KeepsRowZero(S: Series) {
    |S| > 0 && S[0].Some?
  }

  /**
    `isStationnary(S)` on such a Table: `S.dropna()` is rebuilt and scanned,
    which raises when row 0 was dropped; otherwise the oracle decides.
   */
  function TableStationary(adf: Oracle, S: Series, name: string): (r: Result<bool, Error>)
    ensures r.Failure? <==> !KeepsRowZero(S)
    ensures r.Failure? ==> r.error == MissingFirstValue(name)
    ensures r.Success? ==> r.value == Stationary(adf, S)
  {
    if KeepsRowZero(S) then Success(Stationary(adf, S)) else Failure(MissingFirstValue(name))
  }

  /**
    `_diff(X, order)` on such a Table: the deep copy `X.copy(deep=True)` is
    rebuilt and scanned, which raises on a table without rows. The derived
    tables after that keep row 0 (its value is NaN at worst) and pass.
   */
  function TableDiffSeries(X: Series, order: real, name: string): (r: Result<Series, Error>)
    ensures r.Failure? <==> |X| == 0
    ensures r.Failure? ==> r.error == MissingFirstValue(name)
    ensures r.Success? ==> r.value == Diff(X, order, WindowSize)
  {
    if |X| > 0 then Success(Diff(X, order, WindowSize)) else Failure(MissingFirstValue(name))
  }

  /**
    `_diff` leaves the first position missing at every order: `X.shift(1)` at
    order 1, an incomplete first window otherwise. So the row labelled 0
    never survives `dropna()` of a differenced column.
   */
  lemma DiffLosesRowZero(X: Series, order: real)
    requires |X| > 0
    ensures |Diff(X, order, WindowSize)| == |X|
    ensures !KeepsRowZero(Diff(X, order, WindowSize))
  {
    assert Diff(X, order, WindowSize)[0] == DiffAt(X, order, WindowSize, 0);
  }

  /**
    The loop `while b - a >= precision` of `_autodiff` on such a Table, in
    the state it leaves: each midpoint is differenced and handed to the oracle through
    rebuilt tables, and the first error ends the loop. The test of the first
    midpoint already raises, because a differenced column has lost row 0
    (`DiffLosesRowZero`), so the loop never takes a second turn; it returns
    normally only when its body never runs.
   */
  function TableBisect(X: Series, adf: Oracle, p: real, s: SearchState, name: string): (r: Result<SearchState, Error>)
    requires 0.0 <= s.lo < s.hi <= UpperBound
    ensures s.hi - s.lo < p ==> r == Success(s)
    ensures s.hi - s.lo >= p ==> r == Failure(MissingFirstValue(name))
  {
    if s.hi - s.lo < p then Success(s)
    else
      var mid := (s.hi + s.lo) / 2.0;
      match TableDiffSeries(X, mid, name)
      case Failure(e) => Failure(e)
      case Success(d) =>
        match TableStationary(adf, d, name)
        case Failure(e) => Failure(e)
        case Success(_) => assert false; Success(s)
  }

  /**
    The loop on a Table with rows never gets past its first midpoint: the
    differenced column has lost row 0, so its test raises. Only a
    `precision` above 4, for which the loop body never runs, gets through.
   */
  lemma FirstMidpointRaises(X: Series, adf: Oracle, p: real, name: string)
    requires |X| > 0
    ensures TableBisect(X, adf, p, Start, name) ==
              if p > UpperBound then Success(Start) else Failure(MissingFirstValue(name))
  {
    DiffLosesRowZero(X, (UpperBound + 0.0) / 2.0);
  }

  /**
    `_autodiff(X, precision)` on a one-column Table under an integer index.
    The search never returns a differenced column: a column whose first value
    is missing raises at once, an already stationary column comes back
    unchanged with order 0, and any other column raises at the first midpoint,
    or fails with NoValidOrder when `precision` exceeds 4 and no midpoint is
    tried.
   */
  function TableAutoDiff(X: Series, p: real, adf: Oracle, name: string): (r: Result<Candidate, Error>)
    ensures !KeepsRowZero(X) ==> r == Failure(MissingFirstValue(name))
    ensures KeepsRowZero(X) && Stationary(adf, X) ==> r == Success(Candidate(X, 0.0))
    ensures KeepsRowZero(X) && !Stationary(adf, X) ==>
              r == if p > UpperBound then Failure(NoValidOrder) else Failure(MissingFirstValue(name))
  {
    match TableStationary(adf, X, name)
    case Failure(e) => Failure(e)
    case Success(stationary) =>
      if stationary then Success(Candidate(X, 0.0))
      else
        match TableBisect(X, adf, p, Start, name)
        case Failure(e) => Failure(e)
        case Success(s) =>
          // the loop body never ran, so `_valid` is still empty
          assert s.valid == [];
          Failure(NoValidOrder)
  }
}
