/**
  Shared vocabulary of the engine: a numeric series with missing values
  (pandas NaN), a named column of such a series, the stationarity oracle
  and the errors the package raises.
 */
module Data {
  import opened Wrappers

  /** An ordered series of observations; None stands for a missing value (NaN). */
  type Series = seq<Option<real>>

  /** A column of a frame, or a named pandas Series. */
  datatype NamedSeries = NamedSeries(name: string, values: Series)

  /**
    The unit-root test behind `isStationnary`: it sees the observations that
    remain once missing values are dropped and answers whether the p-value is
    within tolerance. It is a parameter of the model, never interpreted.
   */
  type Oracle = seq<real> -> bool

  /** Everything the modelled code raises. */
  datatype Error =
    | InvalidMethod              // assert on the method name (AssertionError)
    | NonPositiveOrder           // assert on a fixed order (AssertionError)
    | UnsupportedInput           // ValueError: not a Series, Table or multi-column frame
    | NoValidOrder               // ValueError: the bisection accepted no candidate
    | OracleFailure              // the unit-root test cannot run on a frame with no column
    | UnsupportedFileType(ext: string)   // ValueError from the Table constructor
    | MissingFirstValue(column: string)  // KeyError: `self[col][0]` finds no row labelled 0
    | UnexpectedKeyword(keyword: string) // TypeError: `pd.read_json` has no `header` parameter

  predicate AllPresent(s: Series) {
    forall i :: 0 <= i < |s| ==> s[i].Some?
  }

  /** The observations of a series that has no missing value. */
  function Values(s: Series): (r: seq<real>)
    requires AllPresent(s)
    ensures |r| == |s|
  {
    seq(|s|, i requires 0 <= i < |s| => s[i].value)
  }

  /** `X.dropna()`: the present observations, in their original order. */
  function DropMissing(s: Series): (r: seq<real>)
    ensures |r| <= |s|
  {
    if s == [] then []
    else
      var rest := DropMissing(s[1..]);
      if s[0].Some? then [s[0].value] + rest else rest
  }

  /** A series without missing values loses nothing to `dropna`. */
  lemma {:induction false} DropMissingOfComplete(s: Series)
    requires AllPresent(s)
    ensures DropMissing(s) == Values(s)
  {
    if s != [] {
      DropMissingOfComplete(s[1..]);
      assert Values(s) == [s[0].value] + Values(s[1..]);
    }
  }

  /** A missing value is dropped and a present one is kept. */
  lemma DropMissingSingletons(x: real)
    ensures DropMissing([None]) == []
    ensures DropMissing([Some(x)]) == [x]
  {
    var missing: Series := [None];
    var present: Series := [Some(x)];
    assert missing[1..] == [] && present[1..] == [];
  }

  /**
    `dropna` works element by element: the series' parts are filtered apart
    and their results joined in order. With `DropMissingSingletons` this fixes
    the result for every series.
   */
  lemma {:induction false} DropMissingAppend(s: Series, t: Series)
    ensures DropMissing(s + t) == DropMissing(s) + DropMissing(t)
  {
    if s != [] {
      assert (s + t)[0] == s[0];
      assert (s + t)[1..] == s[1..] + t;
      DropMissingAppend(s[1..], t);
    } else {
      assert s + t == t;
    }
  }

  /** `isStationnary(X)`: the oracle applied to the series without its missing values. */
  predicate Stationary(adf: Oracle, s: Series) {
    adf(DropMissing(s))
  }

  /** On a series without missing values the oracle decides on its observations, in order. */
  lemma StationaryOfComplete(adf: Oracle, s: Series)
    requires AllPresent(s)
    ensures Stationary(adf, s) <==> adf(Values(s))
  {
    DropMissingOfComplete(s);
  }
}
