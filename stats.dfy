/** The dispersion statistics of `calmeanstd` (17apermag_caha.py and
    errmag.py carry identical copies): the mean, the population sigma with its
    single-sample fallback, and the root-sum-square error divided by the count.
    Square roots are an uninterpreted parameter `sqrt`; `IsSqrt` states the one
    law the lemmas assume of it. */
module Stats {

  function Sq(x: real): real { x * x }

  /** `sum(s)`, accumulated left to right. */
  function Sum(s: seq<real>): real {
    if |s| == 0 then 0.0 else Sum(s[..|s| - 1]) + s[|s| - 1]
  }

  function SumSquares(s: seq<real>): real {
    if |s| == 0 then 0.0 else SumSquares(s[..|s| - 1]) + Sq(s[|s| - 1])
  }

  /** Sum of squared deviations of the elements of `s` from `c`. */
  function SumSqDev(s: seq<real>, c: real): real {
    if |s| == 0 then 0.0 else SumSqDev(s[..|s| - 1], c) + Sq(s[|s| - 1] - c)
  }

  function Mean(s: seq<real>): real
    requires |s| > 0
  {
    Sum(s) / (|s| as real)
  }

  /** Variance divided by n, not by n - 1. */
  function PopVariance(s: seq<real>): real
    requires |s| > 0
  {
    SumSqDev(s, Mean(s)) / (|s| as real)
  }

  ghost predicate IsSqrt(sqrt: real -> real) {
    forall x :: 0.0 <= x ==> 0.0 <= sqrt(x) && sqrt(x) * sqrt(x) == x
  }

  /** What `calmeanstd` returns: (meanmag, sigma, err_mean). */
  datatype Spread = Spread(mean: real, sigma: real, errMean: real)

  /** The specification of `calmeanstd`. `mag` must be non-empty (Python
      divides by its length) and so must `err` (it is divided by its length,
      and `err[0]` is read when there is one magnitude). */
  function Dispersion(mag: seq<real>, err: seq<real>, sqrt: real -> real): Spread
    requires |mag| > 0 && |err| > 0
  {
    Spread(Mean(mag),
           if |mag| > 1 then sqrt(PopVariance(mag)) else err[0],
           sqrt(SumSquares(err)) / (|err| as real))
  }

  /** `calmeanstd(mag, err)` with its two accumulator loops. */
  method MeanStd(mag: seq<real>, err: seq<real>, sqrt: real -> real)
    returns (mean: real, sigma: real, errMean: real)
    requires |mag| > 0 && |err| > 0
    ensures Spread(mean, sigma, errMean) == Dispersion(mag, err, sqrt)
  {
    mean := Sum(mag) / (|mag| as real);
    sigma := 0.0;
    if |mag| > 1 {
      var num := |mag| as real;
      var i := 0;
      while i < |mag|
        invariant 0 <= i <= |mag|
        invariant sigma == SumSqDev(mag[..i], mean) / num
      {
        assert mag[..i + 1][..i] == mag[..i];
        sigma := sigma + 1.0 / num * Sq(mag[i] - mean);
        i := i + 1;
      }
      assert mag[..|mag|] == mag;
      sigma := sqrt(sigma);
    } else {
      sigma := err[0];
    }
    errMean := 0.0;
    var j := 0;
    while j < |err|
      invariant 0 <= j <= |err|
      invariant errMean == SumSquares(err[..j])
    {
      assert err[..j + 1][..j] == err[..j];
      errMean := errMean + Sq(err[j]);
      j := j + 1;
    }
    assert err[..|err|] == err;
    errMean := sqrt(errMean) / (|err| as real);
  }

  lemma SqNonNegative(x: real)
    ensures Sq(x) >= 0.0
  {
    if x < 0.0 { assert Sq(x) == (-x) * (-x); }
  }

  /** The law of `sqrt` at one point. */
  lemma SqrtAt(sqrt: real -> real, x: real)
    requires IsSqrt(sqrt) && 0.0 <= x
    ensures 0.0 <= sqrt(x) && Sq(sqrt(x)) == x
  {
  }

  /** The only non-negative square root of `e * e` is `e`. */
  lemma SqrtOfSquare(sqrt: real -> real, e: real)
    requires IsSqrt(sqrt) && 0.0 <= e
    ensures sqrt(e * e) == e
  {
    SqNonNegative(e);
    var r := sqrt(e * e);
    SqrtAt(sqrt, e * e);
    assert (r - e) * (r + e) == 0.0;
    if r + e == 0.0 {
      assert r == 0.0 && e == 0.0;
    } else {
      assert r - e == (r - e) * (r + e) / (r + e);
    }
  }

  lemma QuotientSquare(a: real, n: real)
    requires n > 0.0
    ensures Sq(a / n) * Sq(n) == Sq(a)
  {
    var q := a / n;
    assert q * n == a;
    assert Sq(q) * Sq(n) == (q * n) * (q * n);
  }

  lemma {:induction false} SumSquaresNonNegative(s: seq<real>)
    ensures SumSquares(s) >= 0.0
  {
    if |s| > 0 {
      SumSquaresNonNegative(s[..|s| - 1]);
      SqNonNegative(s[|s| - 1]);
    }
  }

  lemma {:induction false} SumSqDevNonNegative(s: seq<real>, c: real)
    ensures SumSqDev(s, c) >= 0.0
  {
    if |s| > 0 {
      SumSqDevNonNegative(s[..|s| - 1], c);
      SqNonNegative(s[|s| - 1] - c);
    }
  }

  /** `e` is the quadrature mean of `err`: non-negative, and `e` times the
      number of errors, squared, is the sum of their squares. */
  predicate QuadratureMean(e: real, err: seq<real>) {
    e >= 0.0 && Sq(e) * Sq(|err| as real) == SumSquares(err)
  }

  /** The contracts of `calmeanstd` on squared quantities: sigma squared is the
      population variance (for a single sample sigma is the error itself), and the mean error
      squared times n squared is the sum of the squared errors. */
  lemma DispersionSquares(mag: seq<real>, err: seq<real>, sqrt: real -> real)
    requires IsSqrt(sqrt)
    requires |mag| > 0 && |err| > 0
    ensures var d := Dispersion(mag, err, sqrt);
            && (|mag| > 1 ==> d.sigma >= 0.0 && Sq(d.sigma) == PopVariance(mag))
            && (|mag| == 1 ==> d.sigma == err[0])
            && QuadratureMean(d.errMean, err)
  {
    var d := Dispersion(mag, err, sqrt);
    var n := |err| as real;
    var total := SumSquares(err);
    SumSquaresNonNegative(err);
    SqrtAt(sqrt, total);
    var root := sqrt(total);
    assert d.errMean == root / n;
    QuotientSquare(root, n);
    assert d.errMean >= 0.0;
    if |mag| > 1 {
      SumSqDevNonNegative(mag, Mean(mag));
      SqrtAt(sqrt, PopVariance(mag));
    }
  }

  /** A lone sample's scatter is its own error: with a non-negative error `e`,
      `calmeanstd([m], [e]) == (m, e, e)`. */
  lemma SingleSample(m: real, e: real, sqrt: real -> real)
    requires IsSqrt(sqrt) && e >= 0.0
    ensures Dispersion([m], [e], sqrt) == Spread(m, e, e)
  {
    assert [m][..0] == [] && [e][..0] == [];
    assert Sum([m]) == m;
    assert SumSquares([e]) == e * e;
    SqrtOfSquare(sqrt, e);
  }

  function Shift(s: seq<real>, c: real): (r: seq<real>)
    ensures |r| == |s|
  {
    seq(|s|, i requires 0 <= i < |s| => s[i] + c)
  }

  lemma {:induction false} SumShift(s: seq<real>, c: real)
    ensures Sum(Shift(s, c)) == Sum(s) + (|s| as real) * c
  {
    if |s| > 0 {
      var init := s[..|s| - 1];
      assert Shift(s, c)[..|s| - 1] == Shift(init, c);
      SumShift(init, c);
    }
  }

  lemma {:induction false} SumSqDevShift(s: seq<real>, m: real, c: real)
    ensures SumSqDev(Shift(s, c), m + c) == SumSqDev(s, m)
  {
    if |s| > 0 {
      var init := s[..|s| - 1];
      assert Shift(s, c)[..|s| - 1] == Shift(init, c);
      SumSqDevShift(init, m, c);
    }
  }

  /** Adding a constant to every magnitude moves the mean by that constant and
      leaves the population variance, hence sigma, unchanged. */
  lemma ShiftInvariance(s: seq<real>, c: real)
    requires |s| > 0
    ensures Mean(Shift(s, c)) == Mean(s) + c
    ensures PopVariance(Shift(s, c)) == PopVariance(s)
  {
    var n := |s| as real;
    SumShift(s, c);
    assert Mean(Shift(s, c)) == (Sum(s) + n * c) / n;
    assert (Sum(s) + n * c) / n == Sum(s) / n + c;
    SumSqDevShift(s, Mean(s), c);
  }

  /** A sum of `g` over a sequence, for sums over the stars of an ensemble. */
  function SumOf<T>(s: seq<T>, g: T -> real): real {
    if |s| == 0 then 0.0 else SumOf(s[..|s| - 1], g) + g(s[|s| - 1])
  }

  lemma {:induction false} SumOfAppend<T>(a: seq<T>, b: seq<T>, g: T -> real)
    ensures SumOf(a + b, g) == SumOf(a, g) + SumOf(b, g)
    decreases |b|
  {
    if |b| == 0 {
      assert a + b == a;
    } else {
      assert (a + b)[..|a + b| - 1] == a + b[..|b| - 1];
      SumOfAppend(a, b[..|b| - 1], g);
    }
  }

  /** A sum does not depend on the order of its terms. */
  lemma {:induction false} SumOfPermutation<T>(a: seq<T>, b: seq<T>, g: T -> real)
    requires multiset(a) == multiset(b)
    ensures SumOf(a, g) == SumOf(b, g)
    decreases |a|
  {
    if |a| == 0 {
      assert |b| == |multiset(b)| == 0;
    } else {
      var x := a[|a| - 1];
      var init := a[..|a| - 1];
      assert a == init + [x];
      assert multiset(a) == multiset(init) + multiset{x};
      assert x in multiset(b);
      var j :| 0 <= j < |b| && b[j] == x;
      var rest := b[..j] + b[j + 1..];
      assert b == b[..j] + [x] + b[j + 1..];
      assert multiset(b) == multiset(rest) + multiset{x};
      assert multiset(init) == multiset(a) - multiset{x};
      assert multiset(rest) == multiset(b) - multiset{x};
      SumOfPermutation(init, rest, g);
      SumOfAppend(b[..j] + [x], b[j + 1..], g);
      SumOfAppend(b[..j], [x], g);
      SumOfAppend(b[..j], b[j + 1..], g);
      assert [x][..0] == [];
    }
  }

  lemma {:induction false} SumOfPositive<T>(s: seq<T>, g: T -> real)
    requires forall i :: 0 <= i < |s| ==> g(s[i]) > 0.0
    ensures |s| > 0 ==> SumOf(s, g) > 0.0
  {
    if |s| > 0 {
      SumOfPositive(s[..|s| - 1], g);
    }
  }

  /** With non-negative terms, every term is at most the sum. */
  lemma {:induction false} SumOfDominates<T>(s: seq<T>, g: T -> real, i: nat)
    requires forall k :: 0 <= k < |s| ==> g(s[k]) >= 0.0
    requires i < |s|
    ensures g(s[i]) <= SumOf(s, g)
  {
    var init := s[..|s| - 1];
    if i < |s| - 1 {
      SumOfDominates(init, g, i);
      assert g(s[|s| - 1]) >= 0.0;
    } else {
      SumOfNonNegative(init, g);
    }
  }

  lemma {:induction false} SumOfNonNegative<T>(s: seq<T>, g: T -> real)
    requires forall k :: 0 <= k < |s| ==> g(s[k]) >= 0.0
    ensures SumOf(s, g) >= 0.0
  {
    if |s| > 0 {
      SumOfNonNegative(s[..|s| - 1], g);
    }
  }

  /** Dividing every term by `c` divides the sum by `c`. */
  lemma {:induction false} SumOfScaled<T>(s: seq<T>, g: T -> real, h: T -> real, c: real)
    requires c != 0.0
    requires forall k :: 0 <= k < |s| ==> h(s[k]) == g(s[k]) / c
    ensures SumOf(s, h) == SumOf(s, g) / c
  {
    if |s| > 0 {
      SumOfScaled(s[..|s| - 1], g, h, c);
    }
  }

  /** Multiplying every term by `c` multiplies the sum by `c`. */
  lemma {:induction false} SumOfTimes<T>(s: seq<T>, g: T -> real, h: T -> real, c: real)
    requires forall k :: 0 <= k < |s| ==> h(s[k]) == g(s[k]) * c
    ensures SumOf(s, h) == SumOf(s, g) * c
  {
    if |s| > 0 {
      SumOfTimes(s[..|s| - 1], g, h, c);
    }
  }

  /** Termwise smaller terms have a smaller sum. */
  lemma {:induction false} SumOfMonotone<T>(s: seq<T>, g: T -> real, h: T -> real)
    requires forall k :: 0 <= k < |s| ==> g(s[k]) <= h(s[k])
    ensures SumOf(s, g) <= SumOf(s, h)
  {
    if |s| > 0 {
      SumOfMonotone(s[..|s| - 1], g, h);
    }
  }

  /** A sum of `n` equal terms is `n` times the term. */
  lemma {:induction false} SumOfConstant<T>(s: seq<T>, g: T -> real, x: T)
    requires forall k :: 0 <= k < |s| ==> s[k] == x
    ensures SumOf(s, g) == (|s| as real) * g(x)
  {
    if |s| > 0 {
      SumOfConstant(s[..|s| - 1], g, x);
    }
  }
}
