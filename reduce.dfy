/** The per-exposure differential reduction: a reference is built from every
    star but the last two (the targets), subtracted from every star's
    magnitude, and its error added in quadrature to every star's error.
    `diffmag` in 17apermag_caha.py (through `summagerr`) and in errmag.py (with
    the same expressions inlined) both compute `Differential`. */
module Reduce {
  import opened Outcomes
  import opened Stats
  import opened Photometry
  import opened Ensemble

  /** `s[:-2]`: the comparison stars; empty when there are fewer than two
      stars, as Python's slice is. */
  function Comparison<T>(s: seq<T>): (r: seq<T>)
    ensures |s| >= 2 ==> |r| == |s| - 2
    ensures |s| < 2 ==> r == []
    ensures r == s[..|r|]
  {
    if |s| >= 2 then s[..|s| - 2] else []
  }

  /** `maglst - ref` and `(errlst**2 + referr**2)**0.5`, element-wise. */
  function Subtract(mag: seq<real>, err: seq<real>, refMag: real, refErr: real,
                    sqrt: real -> real): (d: Diff)
    requires |mag| == |err|
    ensures |d.mag| == |d.err| == |mag|
  {
    Diff(seq(|mag|, i requires 0 <= i < |mag| => mag[i] - refMag),
         seq(|err|, i requires 0 <= i < |err| => sqrt(Sq(err[i]) + Sq(refErr))))
  }

  /** What subtracting a reference means: every star is measured relative to
      the reference, differences between stars are kept, and each error is
      the quadrature sum of the star's error and the reference error. */
  lemma SubtractSpec(mag: seq<real>, err: seq<real>, refMag: real, refErr: real,
                     sqrt: real -> real)
    requires |mag| == |err|
    ensures var d := Subtract(mag, err, refMag, refErr, sqrt);
            && (forall i :: 0 <= i < |mag| ==> d.mag[i] + refMag == mag[i])
            && (forall i, j :: 0 <= i < |mag| && 0 <= j < |mag| ==> d.mag[i] - d.mag[j] == mag[i] - mag[j])
            && (IsSqrt(sqrt) ==> forall i :: 0 <= i < |err| ==>
                  d.err[i] >= 0.0 && Sq(d.err[i]) == Sq(err[i]) + Sq(refErr))
  {
    var d := Subtract(mag, err, refMag, refErr, sqrt);
    if IsSqrt(sqrt) {
      forall i | 0 <= i < |err|
        ensures d.err[i] >= 0.0 && Sq(d.err[i]) == Sq(err[i]) + Sq(refErr)
      {
        SqNonNegative(err[i]);
        SqNonNegative(refErr);
        SqrtAt(sqrt, Sq(err[i]) + Sq(refErr));
      }
    }
  }

  /** The comparison stars of an exposure, paired with their errors. */
  function ComparisonStars(m: Measurements): (stars: seq<Star>)
    requires m.Aligned()
    ensures |stars| == |Comparison(m.mag)|
  {
    Zip(Comparison(m.mag), Comparison(m.err))
  }

  /** `diffmag` after `read_mag`: the flux-weighted reference of the
      comparison stars, subtracted from every star. The flux column the file
      provides is not used; fluxes are recomputed from magnitudes. */
  function Differential(m: Measurements, p: Primitives): Result<Diff, Failure>
    requires m.Aligned()
  {
    match FluxWeighted(ComparisonStars(m), p.fluxOf, p.magOf, p.sqrt)
    case None => Failure(MathDomain)
    case Some(ref) => Success(Subtract(m.mag, m.err, ref.mag, ref.err, p.sqrt))
  }

  /** The reduction fails only where `log10` of the total comparison flux
      raises; otherwise every star, targets included, gets its magnitude
      minus the reference and its error in quadrature with the reference
      error. */
  lemma DifferentialSpec(m: Measurements, p: Primitives)
    requires m.Aligned()
    ensures var r := FluxWeighted(ComparisonStars(m), p.fluxOf, p.magOf, p.sqrt);
            && (Differential(m, p).Success? <==> r.Some?)
            && (Differential(m, p).Success? ==>
                  var d := Differential(m, p).value;
                  && |d.mag| == |d.err| == |m.mag|
                  && (forall i :: 0 <= i < |m.mag| ==> d.mag[i] == m.mag[i] - r.value.mag)
                  && (IsSqrt(p.sqrt) ==> forall i :: 0 <= i < |m.mag| ==>
                        d.err[i] >= 0.0 && Sq(d.err[i]) == Sq(m.err[i]) + Sq(r.value.err)))
  {
    var r := FluxWeighted(ComparisonStars(m), p.fluxOf, p.magOf, p.sqrt);
    if r.Some? {
      SubtractSpec(m.mag, m.err, r.value.mag, r.value.err, p.sqrt);
    }
  }

  /** With positive fluxes an exposure reduces exactly when it has at least
      one comparison star besides the two targets. */
  lemma DifferentialDefined(m: Measurements, p: Primitives)
    requires m.Aligned() && PositiveFlux(p.fluxOf)
    ensures Differential(m, p).Success? <==> |m.mag| >= 3
  {
    DefinedIffNonEmpty(ComparisonStars(m), p.fluxOf, p.magOf, p.sqrt);
  }

  /** The last two slots are excluded from the reference: two exposures that
      agree on their comparison stars reduce alike, and every star on which
      they agree gets the same output. */
  lemma TargetLocality(m: Measurements, m2: Measurements, p: Primitives)
    requires m.Aligned() && m2.Aligned() && |m.mag| == |m2.mag|
    requires forall i :: 0 <= i < |m.mag| - 2 ==> m.mag[i] == m2.mag[i] && m.err[i] == m2.err[i]
    ensures Differential(m, p).Success? == Differential(m2, p).Success?
    ensures Differential(m, p).Success? ==>
              var d, d2 := Differential(m, p).value, Differential(m2, p).value;
              forall i :: 0 <= i < |m.mag| && m.mag[i] == m2.mag[i] && m.err[i] == m2.err[i] ==>
                d.mag[i] == d2.mag[i] && d.err[i] == d2.err[i]
  {
    assert Comparison(m.mag) == Comparison(m2.mag);
    assert Comparison(m.err) == Comparison(m2.err);
    assert ComparisonStars(m) == ComparisonStars(m2);
  }
}
