/**
  The adaptive order search `FractionalDiff._autodiff`
  (quantools/processing/fractionaldiff.py).

  If the raw series already passes the oracle it is returned with order 0.
  Otherwise the order is bisected over the bracket [0, 4]: each midpoint is
  differenced and handed to the oracle; an accepted midpoint is appended to `_valid` and
  becomes the upper end, a rejected one the lower end. The loop runs while the
  bracket is at least `precision` wide; the last accepted candidate is returned,
  and an empty `_valid` raises ValueError.
 */
module OrderSearch {
  import opened Wrappers
  import opened Data
  import opened DiffOperator

  /** Upper end of the starting bracket (`a, b = 0, 4`). */
  const UpperBound: real := 4.0

  /** A differenced series with the order that produced it. */
  datatype Candidate = Candidate(series: Series, order: real)

  /** Order d is accepted when X differenced at d passes the oracle. */
  predicate Accepts(X: Series, adf: Oracle, d: real) {
    Stationary(adf, Diff(X, d, WindowSize))
  }

  /**
    The loop state: the bracket [lo, hi], the list `_valid` of accepted
    candidates, and (for the proofs only) the midpoints the oracle rejected.
   */
  datatype SearchState = SearchState(lo: real, hi: real, valid: seq<Candidate>, rejected: seq<real>)

  const Start: SearchState := SearchState(0.0, UpperBound, [], [])

  /** 4 / 2^n: the width of the bracket after n halvings. */
  function Width(n: nat): real {
    if n == 0 then UpperBound else Width(n - 1) / 2.0
  }

  /** Termination measure of the bisection: it drops each time the bracket is halved. */
  function Budget(p: real, width: real): int
    requires p > 0.0 && width > 0.0
  {
    (UpperBound / p).Floor - (UpperBound / width).Floor
  }

  /** From x * w == u and 0 < w <= u: the quotient x is at least 1. */
  lemma QuotientAtLeastOne(u: real, w: real, x: real)
    requires 0.0 < w <= u && x * w == u
    ensures x >= 1.0
  {
    assert x * w <= 1.0 * u;
    assert x > 0.0;
    assert x * w <= x * u;
  }

  /** A smaller divisor gives a larger quotient. */
  lemma QuotientAntitone(u: real, p: real, w: real, x: real, y: real)
    requires 0.0 < p <= w && x * w == u && y * p == u && x >= 0.0
    ensures x <= y
  {
    assert x * p <= x * w;
  }

  lemma HalvingShrinksBudget(p: real, width: real)
    requires 0.0 < p <= width <= UpperBound
    ensures 0 <= Budget(p, width)
    ensures Budget(p, width / 2.0) < Budget(p, width)
  {
    var x := UpperBound / width;
    QuotientAtLeastOne(UpperBound, width, x);
    QuotientAntitone(UpperBound, p, width, x, UpperBound / p);
    assert UpperBound / (width / 2.0) == 2.0 * x;
  }

  /** One iteration of the loop body, from a bracket at least `precision` wide. */
  function Step(X: Series, adf: Oracle, s: SearchState): (r: SearchState)
    ensures |r.valid| + |r.rejected| == |s.valid| + |s.rejected| + 1
    ensures r.hi - r.lo == (s.hi - s.lo) / 2.0
  {
    var mid := (s.hi + s.lo) / 2.0;
    var d := Diff(X, mid, WindowSize);
    if Stationary(adf, d) then SearchState(s.lo, mid, s.valid + [Candidate(d, mid)], s.rejected)
    else SearchState(mid, s.hi, s.valid, s.rejected + [mid])
  }

  /** The loop `while b - a >= precision`, run to its exit from state s. */
  function Bisect(X: Series, adf: Oracle, p: real, s: SearchState): (r: SearchState)
    requires p > 0.0 && 0.0 <= s.lo < s.hi <= UpperBound
    ensures r.hi - r.lo < p
    ensures s.lo <= r.lo < r.hi <= s.hi
    decreases Budget(p, s.hi - s.lo)
  {
    if s.hi - s.lo < p then s
    else
      HalvingShrinksBudget(p, s.hi - s.lo);
      Bisect(X, adf, p, Step(X, adf, s))
  }

  /** The state in which the loop of `_autodiff` exits. */
  function Search(X: Series, adf: Oracle, p: real): SearchState
    requires p > 0.0
  {
    Bisect(X, adf, p, Start)
  }

  /** `_autodiff(X, precision)`, as the value it returns or the error it raises. */
  function AutoDiff(X: Series, p: real, adf: Oracle): (r: Result<Candidate, Error>)
    requires p > 0.0 || Stationary(adf, X)
    ensures r.Failure? ==> r.error == NoValidOrder && !Stationary(adf, X)
  {
    if Stationary(adf, X) then Success(Candidate(X, 0.0))
    else
      var valid := Search(X, adf, p).valid;
      if |valid| == 0 then Failure(NoValidOrder) else Success(valid[|valid| - 1])
  }

  /**
    What the loop keeps true: the bracket stays inside [0, 4] and its width is
    4 / 2^(number of probes); every candidate in `_valid` is X differenced at its
    order and passed the oracle; the accepted orders strictly decrease, the last
    one is the upper end and none lies below it; every rejected order failed the
    oracle and lies at or below the lower end, which is the last rejected order.
   */
  ghost predicate Consistent(X: Series, adf: Oracle, s: SearchState) {
    && 0.0 <= s.lo < s.hi <= UpperBound
    && s.hi - s.lo == Width(|s.valid| + |s.rejected|)
    && (forall i :: 0 <= i < |s.valid| ==>
          && s.valid[i].series == Diff(X, s.valid[i].order, WindowSize)
          && Stationary(adf, s.valid[i].series)
          && s.hi <= s.valid[i].order < UpperBound)
    && (forall i, j :: 0 <= i < j < |s.valid| ==> s.valid[j].order < s.valid[i].order)
    && (forall j :: 0 <= j < |s.rejected| ==> 0.0 < s.rejected[j] <= s.lo && !Accepts(X, adf, s.rejected[j]))
    && s.hi == (if |s.valid| == 0 then UpperBound else s.valid[|s.valid| - 1].order)
    && s.lo == (if |s.rejected| == 0 then 0.0 else s.rejected[|s.rejected| - 1])
  }

  lemma StartConsistent(X: Series, adf: Oracle)
    ensures Consistent(X, adf, Start)
  {
  }

  /** An accepted midpoint: appended to `_valid`, it becomes the upper end. */
  lemma AcceptKeepsConsistent(X: Series, adf: Oracle, s: SearchState, mid: real)
    requires Consistent(X, adf, s) && mid == (s.hi + s.lo) / 2.0 && Accepts(X, adf, mid)
    ensures Consistent(X, adf, SearchState(s.lo, mid, s.valid + [Candidate(Diff(X, mid, WindowSize), mid)], s.rejected))
  {
    var s' := SearchState(s.lo, mid, s.valid + [Candidate(Diff(X, mid, WindowSize), mid)], s.rejected);
    forall i | 0 <= i < |s'.valid|
      ensures s'.valid[i].series == Diff(X, s'.valid[i].order, WindowSize)
      ensures Stationary(adf, s'.valid[i].series)
      ensures s'.hi <= s'.valid[i].order < UpperBound
    {
      if i < |s.valid| {
        assert s'.valid[i] == s.valid[i];
      }
    }
  }

  /** A rejected midpoint: it becomes the lower end. */
  lemma RejectKeepsConsistent(X: Series, adf: Oracle, s: SearchState, mid: real)
    requires Consistent(X, adf, s) && mid == (s.hi + s.lo) / 2.0 && !Accepts(X, adf, mid)
    ensures Consistent(X, adf, SearchState(mid, s.hi, s.valid, s.rejected + [mid]))
  {
    var s' := SearchState(mid, s.hi, s.valid, s.rejected + [mid]);
    assert s'.rejected[|s'.rejected| - 1] == mid;
  }

  /** One halving step keeps the loop invariant and replaces exactly one end by the midpoint. */
  lemma StepKeepsConsistent(X: Series, adf: Oracle, s: SearchState)
    requires Consistent(X, adf, s)
    ensures Consistent(X, adf, Step(X, adf, s))
    ensures var s' := Step(X, adf, s);
            var mid := (s.hi + s.lo) / 2.0;
            s'.hi - s'.lo == (s.hi - s.lo) / 2.0 &&
            ((s'.lo == s.lo && s'.hi == mid) || (s'.lo == mid && s'.hi == s.hi))
  {
    var mid := (s.hi + s.lo) / 2.0;
    if Accepts(X, adf, mid) {
      AcceptKeepsConsistent(X, adf, s, mid);
    } else {
      RejectKeepsConsistent(X, adf, s, mid);
    }
  }

  /** A step only appends to the candidate lists. */
  lemma StepGrowsLists(X: Series, adf: Oracle, s: SearchState)
    ensures s.valid <= Step(X, adf, s).valid && s.rejected <= Step(X, adf, s).rejected
  {
  }

  /**
    The loop invariant holds on exit, and the lists only grow: every candidate
    accepted or rejected before is still recorded.
   */
  lemma {:induction false} BisectKeepsConsistent(X: Series, adf: Oracle, p: real, s: SearchState)
    requires p > 0.0 && Consistent(X, adf, s)
    ensures var r := Bisect(X, adf, p, s);
            Consistent(X, adf, r) && s.valid <= r.valid && s.rejected <= r.rejected
    decreases Budget(p, s.hi - s.lo)
  {
    if s.hi - s.lo >= p {
      HalvingShrinksBudget(p, s.hi - s.lo);
      StepKeepsConsistent(X, adf, s);
      StepGrowsLists(X, adf, s);
      BisectKeepsConsistent(X, adf, p, Step(X, adf, s));
    }
  }

  /**
    What `_autodiff` promises. An already stationary series comes back
    unchanged with order 0 (no differencing). Otherwise the search fails with
    NoValidOrder exactly when the oracle rejected every midpoint it tried; on
    success the order lies strictly inside (0, 4), is the upper end of the exit
    bracket, is the smallest order that was accepted, and the series is X
    differenced at that order and passed the oracle. The exit bracket is
    narrower than `precision` and its lower end is 0 or a rejected order.
   */
  lemma {:induction false} AutoDiffSound(X: Series, p: real, adf: Oracle)
    requires p > 0.0 || Stationary(adf, X)
    ensures Stationary(adf, X) ==> AutoDiff(X, p, adf) == Success(Candidate(X, 0.0))
    ensures !Stationary(adf, X) ==>
      var s := Search(X, adf, p);
      var r := AutoDiff(X, p, adf);
      && s.hi - s.lo < p
      && (s.lo == 0.0 || s.lo in s.rejected)
      && (forall j :: 0 <= j < |s.rejected| ==> !Accepts(X, adf, s.rejected[j]))
      && (forall i :: 0 <= i < |s.valid| ==> Accepts(X, adf, s.valid[i].order))
      && (r.Failure? <==> s.valid == [])
      && (r.Failure? ==> r.error == NoValidOrder && s.hi == UpperBound)
      && (r.Success? ==>
            && 0.0 < r.value.order < UpperBound
            && r.value.series == Diff(X, r.value.order, WindowSize)
            && Stationary(adf, r.value.series)
            && r.value.order == s.hi
            && (forall i :: 0 <= i < |s.valid| ==> r.value.order <= s.valid[i].order))
  {
    if !Stationary(adf, X) {
      StartConsistent(X, adf);
      BisectKeepsConsistent(X, adf, p, Start);
      var s := Search(X, adf, p);
      if |s.rejected| > 0 {
        assert s.lo == s.rejected[|s.rejected| - 1];
      }
    }
  }

  /**
    An order accepted by the oracle stays accepted at every larger order
    below the bound (the premise under which bisection finds a threshold).
   */
  ghost predicate MonotoneIn(X: Series, adf: Oracle) {
    forall d1, d2 :: 0.0 < d1 <= d2 < UpperBound && Accepts(X, adf, d1) ==> Accepts(X, adf, d2)
  }

  /**
    When acceptance is monotone in the order, the search is within `precision`
    of the threshold: no order more than `precision` below the returned one is
    accepted, and a failed search means no order up to 4 - precision is.
   */
  lemma MonotoneConvergence(X: Series, p: real, adf: Oracle)
    requires p > 0.0 && !Stationary(adf, X) && MonotoneIn(X, adf)
    ensures var r := AutoDiff(X, p, adf);
            r.Success? ==> forall d :: 0.0 < d <= r.value.order - p ==> !Accepts(X, adf, d)
    ensures var r := AutoDiff(X, p, adf);
            r.Failure? ==> forall d :: 0.0 < d <= UpperBound - p ==> !Accepts(X, adf, d)
  {
    AutoDiffSound(X, p, adf);
    var s := Search(X, adf, p);
    StartConsistent(X, adf);
    BisectKeepsConsistent(X, adf, p, Start);
    forall d | 0.0 < d <= s.hi - p ensures !Accepts(X, adf, d) {
      assert s.lo != 0.0;
      assert s.lo == s.rejected[|s.rejected| - 1];
      assert !Accepts(X, adf, s.lo);
    }
  }

  /** The `while b - a >= precision` loop of `_autodiff`, returning its `_valid` list. */
  method BisectLoop(X: Series, precision: real, adf: Oracle) returns (valid: seq<Candidate>)
    requires precision > 0.0
    ensures valid == Search(X, adf, precision).valid
  {
    var a, b := 0.0, UpperBound;
    valid := [];
    ghost var rejected: seq<real> := [];
    while b - a >= precision
      invariant 0.0 <= a < b <= UpperBound
      invariant Bisect(X, adf, precision, SearchState(a, b, valid, rejected)) == Search(X, adf, precision)
      decreases Budget(precision, b - a)
    {
      ghost var before := SearchState(a, b, valid, rejected);
      var mid := (b + a) / 2.0;
      HalvingShrinksBudget(precision, b - a);
      var diffSeries := Diff(X, mid, WindowSize);
      if Stationary(adf, diffSeries) {
        valid := valid + [Candidate(diffSeries, mid)];
        b := mid;
      } else {
        a := mid;
        rejected := rejected + [mid];
      }
      assert SearchState(a, b, valid, rejected) == Step(X, adf, before);
    }
  }

  /** `_autodiff` as written: the short-circuit, the bisection loop, then the last accepted candidate. */
  method ComputeAutoDiff(X: Series, precision: real, adf: Oracle) returns (r: Result<Candidate, Error>)
    requires precision > 0.0 || Stationary(adf, X)
    ensures r == AutoDiff(X, precision, adf)
  {
    if Stationary(adf, X) {
      return Success(Candidate(X, 0.0));
    }
    var valid := BisectLoop(X, precision, adf);
    if |valid| == 0 {
      return Failure(NoValidOrder);
    }
    return Success(valid[|valid| - 1]);
  }
}
