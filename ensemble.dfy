/** The flux-weighted ensemble reference of `summagerr` (17apermag_caha.py)
    and of the inlined block of `diffmag` (errmag.py): the comparison stars'
    fluxes are summed, the sum is turned back into a magnitude, and the
    reference error is the root-sum-square of each star's error weighted by
    its share of the total flux. `10 ** (-0.4 m)`, `-2.5 log10` and `** 0.5`
    are the parameters `fluxOf`, `magOf` and `sqrt`. */
module Ensemble {
  import opened Outcomes
  import opened Stats

  /** The zero point `C` both scripts fix at 0.0. */
  const ZeroPoint: real := 0.0

  /** A comparison star: its magnitude and its magnitude error. */
  type Star = (real, real)

  /** The reference magnitude and its error (`summag`, `sumerr`). */
  datatype Reference = Reference(mag: real, err: real)

  /** Fluxes are positive, as `10 ** x` is. */
  ghost predicate PositiveFlux(fluxOf: real -> real) {
    forall m :: fluxOf(m) > 0.0
  }

  /** `-2.5 log10` undoes `10 ** (-0.4 m)`. */
  ghost predicate IsFluxScale(fluxOf: real -> real, magOf: real -> real) {
    PositiveFlux(fluxOf) && forall m :: magOf(fluxOf(m)) == m
  }

  /** Pairs magnitudes with their errors, as numpy's element-wise
      expressions over two equally long arrays do. */
  function Zip(mag: seq<real>, err: seq<real>): (stars: seq<Star>)
    requires |mag| == |err|
    ensures |stars| == |mag|
    ensures forall i :: 0 <= i < |stars| ==> stars[i] == (mag[i], err[i])
  {
    seq(|mag|, i requires 0 <= i < |mag| => (mag[i], err[i]))
  }

  function FluxTerm(fluxOf: real -> real): (t: Star -> real)
    ensures forall s :: t(s) == fluxOf(s.0)
  {
    (s: Star) => fluxOf(s.0)
  }

  /** A star's share of the total flux. */
  function Weight(fluxOf: real -> real, total: real): (t: Star -> real)
    requires total != 0.0
    ensures forall s :: t(s) == fluxOf(s.0) / total
  {
    (s: Star) => fluxOf(s.0) / total
  }

  /** A star's contribution to the squared reference error: its error
      scaled by its share of the total flux, squared. */
  function ErrShare(fluxOf: real -> real, total: real, s: Star): real
    requires total != 0.0
  {
    Sq(fluxOf(s.0) / total * s.1)
  }

  function ErrTerm(fluxOf: real -> real, total: real): (t: Star -> real)
    requires total != 0.0
    ensures forall s :: t(s) == ErrShare(fluxOf, total, s)
  {
    (s: Star) => ErrShare(fluxOf, total, s)
  }

  /** `np.sum(10 ** ((C - mag) / 2.5))`. */
  function TotalFlux(stars: seq<Star>, fluxOf: real -> real): real {
    SumOf(stars, FluxTerm(fluxOf))
  }

  /** `summagerr(mag, err)`: None where `log10` of the total flux raises
      (an empty ensemble sums to 0.0). */
  function FluxWeighted(stars: seq<Star>, fluxOf: real -> real, magOf: real -> real,
                        sqrt: real -> real): Option<Reference>
  {
    var total := TotalFlux(stars, fluxOf);
    if total <= 0.0 then None
    else Some(Reference(magOf(total) + ZeroPoint, sqrt(SumOf(stars, ErrTerm(fluxOf, total)))))
  }

  lemma FluxAt(fluxOf: real -> real, m: real)
    requires PositiveFlux(fluxOf)
    ensures fluxOf(m) > 0.0
  {
  }

  lemma FluxTermsPositive(stars: seq<Star>, fluxOf: real -> real)
    requires PositiveFlux(fluxOf)
    ensures forall i :: 0 <= i < |stars| ==> FluxTerm(fluxOf)(stars[i]) > 0.0
  {
    var g := FluxTerm(fluxOf);
    forall i | 0 <= i < |stars|
      ensures g(stars[i]) > 0.0
    {
      FluxAt(fluxOf, stars[i].0);
      assert g(stars[i]) == fluxOf(stars[i].0);
    }
  }

  lemma TotalFluxPositive(stars: seq<Star>, fluxOf: real -> real)
    requires PositiveFlux(fluxOf) && |stars| > 0
    ensures TotalFlux(stars, fluxOf) > 0.0
  {
    FluxTermsPositive(stars, fluxOf);
    SumOfPositive(stars, FluxTerm(fluxOf));
  }

  /** With positive fluxes the reference exists exactly when there is at
      least one comparison star. */
  lemma DefinedIffNonEmpty(stars: seq<Star>, fluxOf: real -> real, magOf: real -> real,
                           sqrt: real -> real)
    requires PositiveFlux(fluxOf)
    ensures FluxWeighted(stars, fluxOf, magOf, sqrt).Some? <==> |stars| > 0
  {
    if |stars| > 0 {
      TotalFluxPositive(stars, fluxOf);
    }
  }

  /** A single comparison star is its own reference. */
  lemma SingleStar(m: real, e: real, fluxOf: real -> real, magOf: real -> real,
                   sqrt: real -> real)
    requires IsFluxScale(fluxOf, magOf) && IsSqrt(sqrt) && e >= 0.0
    ensures FluxWeighted([(m, e)], fluxOf, magOf, sqrt) == Some(Reference(m, e))
  {
    var stars := [(m, e)];
    assert stars[..0] == [];
    var f := fluxOf(m);
    assert f > 0.0;
    assert FluxTerm(fluxOf)((m, e)) == f;
    assert TotalFlux(stars, fluxOf) == SumOf(stars[..0], FluxTerm(fluxOf)) + f;
    assert ErrTerm(fluxOf, f)((m, e)) == ErrShare(fluxOf, f, (m, e));
    assert f / f == 1.0;
    assert f / f * e == e;
    assert SumOf(stars, ErrTerm(fluxOf, f)) == SumOf(stars[..0], ErrTerm(fluxOf, f)) + e * e;
    assert magOf(f) == m;
    SqrtOfSquare(sqrt, e);
  }

  /** The flux weights of a non-empty ensemble sum to one. */
  lemma WeightsSumToOne(stars: seq<Star>, fluxOf: real -> real)
    requires PositiveFlux(fluxOf) && |stars| > 0
    ensures TotalFlux(stars, fluxOf) > 0.0
    ensures SumOf(stars, Weight(fluxOf, TotalFlux(stars, fluxOf))) == 1.0
  {
    var total := TotalFlux(stars, fluxOf);
    TotalFluxPositive(stars, fluxOf);
    var g, h := FluxTerm(fluxOf), Weight(fluxOf, total);
    forall i | 0 <= i < |stars|
      ensures h(stars[i]) == g(stars[i]) / total
    {
      assert h(stars[i]) == fluxOf(stars[i].0) / total;
      assert g(stars[i]) == fluxOf(stars[i].0);
    }
    SumOfScaled(stars, g, h, total);
    assert total / total == 1.0;
  }

  /** `n` identical stars of magnitude `M` and error `E` give the magnitude
      of `n` times their flux and an error of `E / sqrt(n)`. */
  lemma EqualStars(stars: seq<Star>, M: real, E: real, fluxOf: real -> real,
                   magOf: real -> real, sqrt: real -> real)
    requires PositiveFlux(fluxOf) && IsSqrt(sqrt)
    requires |stars| > 0 && forall i :: 0 <= i < |stars| ==> stars[i] == (M, E)
    ensures var r := FluxWeighted(stars, fluxOf, magOf, sqrt);
            var n := |stars| as real;
            && r.Some?
            && r.value.mag == magOf(n * fluxOf(M))
            && r.value.err >= 0.0
            && Sq(r.value.err) == Sq(E) / n
  {
    var n := |stars| as real;
    var f := fluxOf(M);
    SumOfConstant(stars, FluxTerm(fluxOf), (M, E));
    var total := n * f;
    assert TotalFlux(stars, fluxOf) == total;
    SumOfConstant(stars, ErrTerm(fluxOf, total), (M, E));
    var sum := SumOf(stars, ErrTerm(fluxOf, total));
    EqualShare(f, n, E);
    SqNonNegative(E);
    assert sum == Sq(E) / n;
    SqrtAt(sqrt, sum);
  }

  /** The arithmetic behind EqualStars: `n` terms of `(f / (n f) * E)^2`. */
  lemma EqualShare(f: real, n: real, E: real)
    requires f > 0.0 && n >= 1.0
    ensures n * Sq(f / (n * f) * E) == Sq(E) / n
  {
    assert f / (n * f) == 1.0 / n;
    assert f / (n * f) * E == E / n;
    assert Sq(E / n) * (n * n) == Sq(E) by { QuotientSquare(E, n); }
    assert n * Sq(E / n) == Sq(E) / n;
  }

  /** The reference does not depend on the order of the comparison stars. */
  lemma OrderIndependent(a: seq<Star>, b: seq<Star>, fluxOf: real -> real, magOf: real -> real,
                         sqrt: real -> real)
    requires multiset(a) == multiset(b)
    ensures FluxWeighted(a, fluxOf, magOf, sqrt) == FluxWeighted(b, fluxOf, magOf, sqrt)
  {
    SumOfPermutation(a, b, FluxTerm(fluxOf));
    var total := TotalFlux(a, fluxOf);
    if total > 0.0 {
      SumOfPermutation(a, b, ErrTerm(fluxOf, total));
    }
  }

  lemma ProductNonNegative(a: real, b: real)
    requires a >= 0.0 && b >= 0.0
    ensures a * b >= 0.0
  {
  }

  lemma ShareBounds(f: real, total: real)
    requires 0.0 < f <= total
    ensures 0.0 < f / total <= 1.0
  {
    var q := f / total;
    assert q * total == f;
  }

  lemma WeightedTermBound(w: real, e: real, B: real)
    requires 0.0 < w <= 1.0 && Sq(e) <= Sq(B)
    ensures Sq(w * e) <= w * Sq(B)
  {
    var d := Sq(B) - Sq(e);
    assert Sq(w * e) == (w * w) * Sq(e);
    assert (w * w) * Sq(B) - (w * w) * Sq(e) == (w * w) * d;
    ProductNonNegative(w * w, d);
    SqNonNegative(B);
    assert w * Sq(B) - (w * w) * Sq(B) == w * ((1.0 - w) * Sq(B));
    ProductNonNegative(1.0 - w, Sq(B));
    ProductNonNegative(w, (1.0 - w) * Sq(B));
  }

  /** A star's weight times the squared error bound. */
  function BoundTerm(fluxOf: real -> real, total: real, c: real): (t: Star -> real)
    requires total != 0.0
    ensures forall s :: t(s) == fluxOf(s.0) / total * c
  {
    (s: Star) => fluxOf(s.0) / total * c
  }

  lemma BoundTermAt(fluxOf: real -> real, total: real, c: real, s: Star)
    requires total != 0.0
    ensures BoundTerm(fluxOf, total, c)(s) == Weight(fluxOf, total)(s) * c
  {
    var f := fluxOf(s.0) / total;
    assert BoundTerm(fluxOf, total, c)(s) == f * c;
    assert Weight(fluxOf, total)(s) == f;
  }

  /** Scaling every weight by `c` scales their sum by `c`. */
  lemma WeightedSum(stars: seq<Star>, fluxOf: real -> real, total: real, c: real)
    requires total != 0.0
    ensures SumOf(stars, BoundTerm(fluxOf, total, c)) == SumOf(stars, Weight(fluxOf, total)) * c
  {
    var w, h := Weight(fluxOf, total), BoundTerm(fluxOf, total, c);
    forall i | 0 <= i < |stars|
      ensures h(stars[i]) == w(stars[i]) * c
    {
      BoundTermAt(fluxOf, total, c, stars[i]);
    }
    SumOfTimes(stars, w, h, c);
  }

  /** One star's term of the squared error is at most its weight times
      the squared bound. */
  lemma TermBound(fluxOf: real -> real, total: real, s: Star, B: real)
    requires 0.0 < fluxOf(s.0) <= total && Sq(s.1) <= Sq(B)
    ensures ErrTerm(fluxOf, total)(s) <= BoundTerm(fluxOf, total, Sq(B))(s)
  {
    var w := fluxOf(s.0) / total;
    ShareBounds(fluxOf(s.0), total);
    WeightedTermBound(w, s.1, B);
    assert ErrTerm(fluxOf, total)(s) == Sq(w * s.1);
  }

  lemma ErrSumBound(stars: seq<Star>, fluxOf: real -> real, total: real, B: real)
    requires PositiveFlux(fluxOf) && total > 0.0
    requires forall i :: 0 <= i < |stars| ==> fluxOf(stars[i].0) <= total && Sq(stars[i].1) <= Sq(B)
    ensures SumOf(stars, ErrTerm(fluxOf, total)) <= SumOf(stars, Weight(fluxOf, total)) * Sq(B)
  {
    TermsBounded(stars, fluxOf, total, B);
    WeightedSum(stars, fluxOf, total, Sq(B));
  }

  lemma TermsBounded(stars: seq<Star>, fluxOf: real -> real, total: real, B: real)
    requires PositiveFlux(fluxOf) && total > 0.0
    requires forall i :: 0 <= i < |stars| ==> fluxOf(stars[i].0) <= total && Sq(stars[i].1) <= Sq(B)
    ensures SumOf(stars, ErrTerm(fluxOf, total)) <= SumOf(stars, BoundTerm(fluxOf, total, Sq(B)))
  {
    TermwiseBounded(stars, fluxOf, total, B);
    SumOfMonotone(stars, ErrTerm(fluxOf, total), BoundTerm(fluxOf, total, Sq(B)));
  }

  lemma TermwiseBounded(stars: seq<Star>, fluxOf: real -> real, total: real, B: real)
    requires PositiveFlux(fluxOf) && total > 0.0
    requires forall i :: 0 <= i < |stars| ==> fluxOf(stars[i].0) <= total && Sq(stars[i].1) <= Sq(B)
    ensures forall i :: 0 <= i < |stars| ==>
              ErrTerm(fluxOf, total)(stars[i]) <= BoundTerm(fluxOf, total, Sq(B))(stars[i])
  {
    forall i | 0 <= i < |stars|
      ensures ErrTerm(fluxOf, total)(stars[i]) <= BoundTerm(fluxOf, total, Sq(B))(stars[i])
    {
      FluxAt(fluxOf, stars[i].0);
      TermBound(fluxOf, total, stars[i], B);
    }
  }

  /** The reference is never noisier than the noisiest comparison star: if
      every error is at most `B` in size, so is the reference error. */
  lemma ErrorBounded(stars: seq<Star>, B: real, fluxOf: real -> real, magOf: real -> real,
                     sqrt: real -> real)
    requires PositiveFlux(fluxOf) && IsSqrt(sqrt) && |stars| > 0
    requires forall i :: 0 <= i < |stars| ==> Sq(stars[i].1) <= Sq(B)
    ensures var r := FluxWeighted(stars, fluxOf, magOf, sqrt);
            r.Some? && r.value.err >= 0.0 && Sq(r.value.err) <= Sq(B)
  {
    var total := TotalFlux(stars, fluxOf);
    TotalFluxPositive(stars, fluxOf);
    FluxTermsPositive(stars, fluxOf);
    forall i | 0 <= i < |stars|
      ensures fluxOf(stars[i].0) <= total
    {
      SumOfDominates(stars, FluxTerm(fluxOf), i);
    }
    ErrSumBound(stars, fluxOf, total, B);
    WeightsSumToOne(stars, fluxOf);
    var sum := SumOf(stars, ErrTerm(fluxOf, total));
    forall i | 0 <= i < |stars|
      ensures ErrTerm(fluxOf, total)(stars[i]) >= 0.0
    {
      SqNonNegative(fluxOf(stars[i].0) / total * stars[i].1);
    }
    SumOfNonNegative(stars, ErrTerm(fluxOf, total));
    SqrtAt(sqrt, sum);
  }
}
