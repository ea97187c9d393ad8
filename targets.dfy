/** The end of `main` in both scripts: the last two stars of the light
    curve are the targets, and each is binned by night with
    `combine_days`. The error series passed for target `i` is row `i` of the
    full error matrix, the error series of star `i`, not of the target. */
module Targets {
  import opened LightCurve
  import NightBin

  /** `rows[-2:]`: the last two rows, or all of them when there are fewer. */
  function LastTwo<T>(rows: seq<T>): (r: seq<T>)
    ensures |r| == (if |rows| < 2 then |rows| else 2)
    ensures forall i :: 0 <= i < |r| ==> r[i] == rows[|rows| - |r| + i]
  {
    rows[|rows| - (if |rows| < 2 then |rows| else 2)..]
  }

  /** One series per star, each as long as the timestamps. */
  predicate Shaped(c: LightCurve) {
    && |c.mag| == |c.err|
    && forall s :: 0 <= s < |c.mag| ==> |c.mag[s]| == |c.jd| && |c.err[s]| == |c.jd|
  }

  /** What `combine_days` returns for one target: night timestamps,
      magnitudes and errors. */
  datatype Nightly = Nightly(jd: seq<real>, mag: seq<real>, err: seq<real>)

  /** `combine_days(jdlst, objlst[i], magerrlst[i])` as a value. */
  function TargetNights(c: LightCurve, i: nat, sqrt: real -> real): Nightly
    requires Shaped(c) && i < |LastTwo(c.mag)|
  {
    var bins := NightBin.Combined(c.jd, LastTwo(c.mag)[i], c.err[i], sqrt);
    Nightly(NightBin.Jds(bins), NightBin.Mags(bins), NightBin.Errs(bins))
  }

  /** `combine_days` of every target, in order. */
  function AllNights(c: LightCurve, sqrt: real -> real): (r: seq<Nightly>)
    requires Shaped(c)
    ensures |r| == |LastTwo(c.mag)|
    ensures forall i :: 0 <= i < |r| ==> r[i] == TargetNights(c, i, sqrt)
  {
    seq(|LastTwo(c.mag)|, i requires 0 <= i < |LastTwo(c.mag)| => TargetNights(c, i, sqrt))
  }

  /** The series target `i` is binned with are as long as the timestamps. */
  lemma TargetInputs(c: LightCurve, i: nat)
    requires Shaped(c) && i < |LastTwo(c.mag)|
    ensures |c.jd| <= |LastTwo(c.mag)[i]| && |c.jd| <= |c.err[i]|
  {
    var objs := LastTwo(c.mag);
    var k := |c.mag| - |objs| + i;
    assert objs[i] == c.mag[k];
    assert |c.mag[k]| == |c.jd|;
    assert |c.err[i]| == |c.jd|;
  }

  /** Lines 267-272 of 17apermag_caha.py (257-262 of errmag.py): each target
      binned in turn. */
  method BinTargets(c: LightCurve, sqrt: real -> real) returns (nights: seq<Nightly>)
    requires Shaped(c)
    ensures nights == AllNights(c, sqrt)
  {
    ghost var want := AllNights(c, sqrt);
    nights := [];
    var i := 0;
    while i < |LastTwo(c.mag)|
      invariant i <= |LastTwo(c.mag)| && nights == want[..i]
    {
      var n := BinTarget(c, i, sqrt);
      nights := nights + [n];
      assert want[..i + 1] == want[..i] + [want[i]];
      i := i + 1;
    }
  }

  /** `combine_days(jdlst, objlst[i], magerrlst[i])`. */
  method BinTarget(c: LightCurve, i: nat, sqrt: real -> real) returns (n: Nightly)
    requires Shaped(c) && i < |LastTwo(c.mag)|
    ensures n == TargetNights(c, i, sqrt)
  {
    TargetInputs(c, i);
    var nJd, nMag, nErr := NightBin.CombineDays(c.jd, LastTwo(c.mag)[i], c.err[i], sqrt);
    n := Nightly(nJd, nMag, nErr);
  }

  /** Targets `0` and `1` are the last two stars; the error series each is
      binned with is that of star `0` or `1`, which with four or more stars
      is a comparison star. */
  lemma TargetRows(c: LightCurve, i: nat, sqrt: real -> real)
    requires Shaped(c) && |c.mag| >= 2 && i < 2
    ensures var n := |c.mag|;
            var bins := NightBin.Combined(c.jd, c.mag[n - 2 + i], c.err[i], sqrt);
            && i < |LastTwo(c.mag)|
            && TargetNights(c, i, sqrt) == Nightly(NightBin.Jds(bins), NightBin.Mags(bins), NightBin.Errs(bins))
            && (n >= 4 ==> i < n - 2 && i != n - 2 + i)
  {
  }

  /** The night timestamps depend on the timestamps alone, so every target
      gets the same ones, and `main` may write those of the last target
      for all of them. */
  lemma SharedTimestamps(c: LightCurve, i: nat, j: nat, sqrt: real -> real)
    requires Shaped(c) && i < |LastTwo(c.mag)| && j < |LastTwo(c.mag)|
    ensures TargetNights(c, i, sqrt).jd == TargetNights(c, j, sqrt).jd
    ensures |TargetNights(c, i, sqrt).mag| == |TargetNights(c, i, sqrt).jd|
  {
    NightBin.TimestampsOnly(c.jd, LastTwo(c.mag)[i], c.err[i], LastTwo(c.mag)[j], c.err[j], sqrt);
  }
}
