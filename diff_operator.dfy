/**
  The differencing operator `FractionalDiff._diff`
  (quantools/processing/fractionaldiff.py).

  At order 1 it is the plain first difference `X - X.shift(1)`. At every other
  order it rolls a window of `window_size` observations over the series and
  applies `np.convolve(coeffs, window, "valid")`, where
  `coeffs[k] = (-1)^k * binom(order, k)`. Positions whose window is not full,
  or holds a missing value, stay missing. Values are modelled as exact reals.
 */
module DiffOperator {
  import opened Wrappers
  import opened Data

  /** Default `window_size` of `_diff`; no caller passes another value. */
  const WindowSize: nat := 10

  /**
    Generalised binomial coefficient binom(r, k) for a real r and a natural k,
    the falling factorial r (r-1) ... (r-k+1) over k!, built by the ratio
    binom(r, k) = binom(r, k-1) * (r - k + 1) / k.
   */
  function Binom(r: real, k: nat): (b: real)
    ensures k == 0 ==> b == 1.0
    ensures k == 1 ==> b == r
  {
    if k == 0 then 1.0 else Binom(r, k - 1) * (r - (k - 1) as real) / (k as real)
  }

  /** (-1)^k */
  function Sign(k: nat): real {
    if k % 2 == 0 then 1.0 else -1.0
  }

  /** The k-th weight of the window: (-1)^k * binom(order, k). */
  function Coeff(order: real, k: nat): real {
    Sign(k) * Binom(order, k)
  }

  /** The `window_size` weights `coeffs` of `_diff`. */
  function Coeffs(order: real, w: nat): (c: seq<real>)
    ensures |c| == w
    ensures w >= 1 ==> c[0] == 1.0
    ensures w >= 2 ==> c[1] == -order
  {
    seq(w, k requires 0 <= k < w => Coeff(order, k))
  }

  /**
    `np.convolve(c, win, mode="valid")` for a kernel and a window of equal
    length: its single output sum_m c[m] * win[n-1-m] (the kernel is flipped).
   */
  function Convolve(c: seq<real>, win: seq<real>): (v: real)
    requires |c| == |win|
    ensures |c| >= 1 && (forall m :: 1 <= m < |c| ==> c[m] == 0.0) ==> v == c[0] * win[|win| - 1]
    decreases |c|
  {
    if |c| == 0 then 0.0
    else Convolve(c[..|c| - 1], win[1..]) + c[|c| - 1] * win[0]
  }

  /** The window of `w` observations that `rolling(w)` hands over at position t. */
  function Window(X: Series, w: nat, t: nat): Series
    requires 1 <= w <= t + 1 && t < |X|
  {
    X[t + 1 - w..t + 1]
  }

  /** True when the w observations X[t-w+1], ..., X[t-1], X[t] all exist. */
  predicate LagsPresent(X: Series, w: nat, t: nat)
    requires t < |X|
  {
    w <= t + 1 && forall i :: t + 1 - w <= i <= t ==> X[i].Some?
  }

  /** sum_{k < |c|} c[k] * X[t-k]: the weighted sum over the last |c| observations. */
  function LaggedSum(c: seq<real>, X: Series, t: nat): real
    requires t < |X| && LagsPresent(X, |c|, t)
    decreases |c|
  {
    if |c| == 0 then 0.0
    else LaggedSum(c[..|c| - 1], X, t) + c[|c| - 1] * X[t - (|c| - 1)].value
  }

  /** A full window holds no missing value exactly when all its lags are present. */
  lemma WindowPresence(X: Series, w: nat, t: nat)
    requires 1 <= w <= t + 1 && t < |X|
    ensures AllPresent(Window(X, w, t)) <==> LagsPresent(X, w, t)
  {
    var win := Window(X, w, t);
    if AllPresent(win) {
      forall i | t + 1 - w <= i <= t ensures X[i].Some? {
        assert win[i - (t + 1 - w)] == X[i];
      }
    }
    if LagsPresent(X, w, t) {
      forall j | 0 <= j < w ensures win[j].Some? {
        assert win[j] == X[t + 1 - w + j];
      }
    }
  }

  /**
    The flip performed by `np.convolve`: convolving the coefficients with the
    rolling window that ends at t is the lagged sum sum_k c[k] * X[t-k].
   */
  lemma {:induction false} ConvolveIsLaggedSum(c: seq<real>, X: Series, t: nat)
    requires 1 <= |c| <= t + 1 && t < |X|
    requires AllPresent(Window(X, |c|, t))
    ensures LagsPresent(X, |c|, t)
    ensures Convolve(c, Values(Window(X, |c|, t))) == LaggedSum(c, X, t)
  {
    var n := |c|;
    var win := Values(Window(X, n, t));
    WindowPresence(X, n, t);
    if n > 1 {
      var c' := c[..n - 1];
      assert Window(X, n - 1, t) == Window(X, n, t)[1..];
      assert Values(Window(X, n - 1, t)) == win[1..];
      ConvolveIsLaggedSum(c', X, t);
    } else {
      assert c[..0] == [];
      assert win[1..] == [];
    }
    assert win[0] == X[t - (n - 1)].value;
  }

  /**
    `rolling(w).apply(D, raw=True)` at a position with a full window: the
    convolution of the weights with the window, or missing when the window
    holds a missing value.
   */
  function RollingValue(X: Series, order: real, w: nat, t: nat): (v: Option<real>)
    requires 1 <= w <= t + 1 && t < |X|
    ensures v.Some? <==> LagsPresent(X, w, t)
    ensures v.Some? ==> v.value == LaggedSum(Coeffs(order, w), X, t)
  {
    var win := Window(X, w, t);
    WindowPresence(X, w, t);
    if !AllPresent(win) then None
    else
      ConvolveIsLaggedSum(Coeffs(order, w), X, t);
      Some(Convolve(Coeffs(order, w), Values(win)))
  }

  /** Position t of `_diff(X, order, w)`. */
  function DiffAt(X: Series, order: real, w: nat, t: nat): (v: Option<real>)
    requires 1 <= w && t < |X|
    ensures order != 1.0 ==> (v.Some? <==> LagsPresent(X, w, t))
    ensures order != 1.0 && v.Some? ==> LagsPresent(X, w, t) && v.value == LaggedSum(Coeffs(order, w), X, t)
    ensures order == 1.0 ==> (v.Some? <==> LagsPresent(X, 2, t))
  {
    if order == 1.0 then
      if t >= 1 && X[t].Some? && X[t - 1].Some? then Some(X[t].value - X[t - 1].value) else None
    else if t + 1 < w then None
    else RollingValue(X, order, w, t)
  }

  /**
    `_diff(X, order, window_size)`: a series of the same length as X (the input
    itself is left untouched: it is a value).
   */
  function Diff(X: Series, order: real, w: nat): (r: Series)
    requires 1 <= w
    ensures |r| == |X|
  {
    seq(|X|, t requires 0 <= t < |X| => DiffAt(X, order, w, t))
  }

  /**
    What `_diff` computes at each position away from order 1: the position is
    present exactly when the window of w observations ending there is full and
    complete, and it then holds the lagged sum of the weights.
   */
  lemma DiffIsRollingSum(X: Series, order: real, w: nat, t: nat)
    requires 1 <= w && t < |X| && order != 1.0
    ensures Diff(X, order, w)[t].Some? <==> LagsPresent(X, w, t)
    ensures Diff(X, order, w)[t].Some? ==> Diff(X, order, w)[t].value == LaggedSum(Coeffs(order, w), X, t)
    ensures t + 1 < w ==> Diff(X, order, w)[t].None?
  {
    assert Diff(X, order, w)[t] == DiffAt(X, order, w, t);
  }

  /** At order 1 a position is present exactly when it and its predecessor are. */
  lemma DiffAtOrderOne(X: Series, w: nat, t: nat)
    requires 1 <= w && t < |X|
    ensures Diff(X, 1.0, w)[t].Some? <==> LagsPresent(X, 2, t)
    ensures Diff(X, 1.0, w)[t].Some? ==> Diff(X, 1.0, w)[t].value == X[t].value - X[t - 1].value
  {
    assert Diff(X, 1.0, w)[t] == DiffAt(X, 1.0, w, t);
  }

  /** binom(n, k) vanishes for a natural n below k. */
  lemma {:induction false} BinomVanishesAboveNat(n: nat, k: nat)
    requires n < k
    ensures Binom(n as real, k) == 0.0
  {
    if k == n + 1 {
      assert (n as real) - ((k - 1) as real) == 0.0;
    } else {
      BinomVanishesAboveNat(n, k - 1);
    }
  }

  /**
    The weights follow the ratio recurrence
    c[k] = -c[k-1] * (order - k + 1) / k, starting from c[0] = 1.
   */
  lemma CoeffRecurrence(order: real, k: nat)
    ensures Coeff(order, 0) == 1.0
    ensures k >= 1 ==> Coeff(order, k) == -Coeff(order, k - 1) * (order - (k - 1) as real) / (k as real)
  {
    if k >= 1 {
      assert Sign(k) == -Sign(k - 1);
    }
  }

  /** A lagged sum whose only non-zero weight is the first one reads X[t] times that weight. */
  lemma {:induction false} LaggedSumOfHead(c: seq<real>, X: Series, t: nat)
    requires 1 <= |c| && t < |X| && LagsPresent(X, |c|, t)
    requires forall k :: 1 <= k < |c| ==> c[k] == 0.0
    ensures LaggedSum(c, X, t) == c[0] * X[t].value
  {
    if |c| > 1 {
      LaggedSumOfHead(c[..|c| - 1], X, t);
    }
  }

  /**
    Order 0: every weight after the first is zero and the first is one, so
    wherever the window is full and complete the output is X[t] exactly;
    the leading w-1 positions stay missing.
   */
  lemma OrderZeroIsIdentity(X: Series, w: nat, t: nat)
    requires 1 <= w && t < |X|
    ensures w - 1 <= t && LagsPresent(X, w, t) ==> Diff(X, 0.0, w)[t] == X[t]
    ensures t < w - 1 ==> Diff(X, 0.0, w)[t].None?
  {
    if w - 1 <= t && LagsPresent(X, w, t) {
      var c := Coeffs(0.0, w);
      forall k | 1 <= k < w ensures c[k] == 0.0 {
        BinomVanishesAboveNat(0, k);
      }
      assert c[0] == 1.0;
      LaggedSumOfHead(c, X, t);
      var v := DiffAt(X, 0.0, w, t);
      assert v.Some? && v.value == LaggedSum(c, X, t);
      assert LaggedSum(c, X, t) == 1.0 * X[t].value;
      assert X[t].Some?;
      assert v == Some(X[t].value);
    }
  }

  /** A lagged sum whose weights vanish from index 2 on uses only X[t] and X[t-1]. */
  lemma {:induction false} LaggedSumOfFirstTwo(c: seq<real>, X: Series, t: nat)
    requires 2 <= |c| && t < |X| && LagsPresent(X, |c|, t)
    requires forall k :: 2 <= k < |c| ==> c[k] == 0.0
    ensures LaggedSum(c, X, t) == c[0] * X[t].value + c[1] * X[t - 1].value
  {
    if |c| > 2 {
      LaggedSumOfFirstTwo(c[..|c| - 1], X, t);
    } else {
      var c1 := c[..1];
      assert c1[..0] == [];
      assert LaggedSum(c1, X, t) == c[0] * X[t].value;
      assert t - (|c| - 1) == t - 1;
    }
  }

  /**
    The window formula at order 1 has weights 1, -1, 0, 0, ...: wherever a full
    window exists it agrees with the first difference `_diff` computes at order 1
    (it would only differ by leaving the first w-1 positions missing).
   */
  lemma WindowFormulaAtOrderOne(X: Series, w: nat, t: nat)
    requires 2 <= w && t < |X| && LagsPresent(X, w, t)
    ensures LaggedSum(Coeffs(1.0, w), X, t) == X[t].value - X[t - 1].value
    ensures Diff(X, 1.0, w)[t] == Some(X[t].value - X[t - 1].value)
  {
    var c := Coeffs(1.0, w);
    forall k | 2 <= k < w ensures c[k] == 0.0 {
      BinomVanishesAboveNat(1, k);
    }
    assert c[0] == 1.0 && c[1] == -1.0;
    LaggedSumOfFirstTwo(c, X, t);
  }
}
