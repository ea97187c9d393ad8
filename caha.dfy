/** The reduction of 17apermag_caha.py: `read_mag` with its error log,
    `diffmag2`, which can take the target slot from a second measurement of
    the same exposure and then uses the plain mean of the comparison stars
    as reference, the `getlightcurve` loop over the exposure list and the
    list-file parsing of `main`. The file system is a map from path to the
    file's lines; `get_jd` is the parameter `jdOf`. */
module Caha {
  import opened Outcomes
  import opened Text
  import opened Photometry
  import opened Stats
  import opened MagFile
  import opened Reduce
  import opened LightCurve

  /** IndexError escapes as it is; ValueError is logged to `error.log` with
      the file name and re-raised. */
  function Fault(name: string, f: LineFault): Failure {
    match f
    case Short => MissingField(name)
    case NotNumber => BadNumber(name)
  }

  /** What `read_mag(name)` returns or raises. */
  function Parsed(fs: Files, name: string, parse: string -> Option<real>): Result<Measurements, Failure> {
    if name !in fs then Failure(NoSuchFile(name))
    else
      match DataLines(fs[name])
      case None => Failure(BlankLine(name))
      case Some(f) =>
        match Columns(f, parse)
        case Failure(e) => Failure(Fault(name, e))
        case Success(m) => Success(m)
  }

  /** A missing file, a blank line and a refused record line are the only
      ways to fail, each reported against the file read; otherwise the
      three columns are aligned and hold one record per block of five
      non-comment lines. */
  lemma ParsedSpec(fs: Files, name: string, parse: string -> Option<real>)
    ensures var r := Parsed(fs, name, parse);
            && (r == Failure(NoSuchFile(name)) <==> name !in fs)
            && (name in fs ==>
                  (r == Failure(BlankLine(name)) <==> exists i :: 0 <= i < |fs[name]| && Strip(fs[name][i]) == []))
            && (r.Success? <==> name in fs && DataLines(fs[name]).Some? &&
                                Columns(DataLines(fs[name]).value, parse).Success?)
            && (r.Success? ==> r.value.Aligned() && |r.value.mag| == |DataLines(fs[name]).value| / Stride)
            && (r.Failure? ==> r.error in {NoSuchFile(name), BlankLine(name), MissingField(name), BadNumber(name)})
  {
    if name in fs && DataLines(fs[name]).Some? {
      ColumnsSpec(DataLines(fs[name]).value, parse);
    }
  }

  /** `read_mag` (lines 30-65). */
  method ReadMag(fs: Files, name: string, parse: string -> Option<real>)
    returns (r: Result<Measurements, Failure>)
    ensures r == Parsed(fs, name, parse)
  {
    if name !in fs {
      return Failure(NoSuchFile(name));
    }
    var lines := DataLines(fs[name]);
    if lines.None? {
      return Failure(BlankLine(name));
    }
    var cols := ReadBlocks(lines.value, parse);
    if cols.Failure? {
      return Failure(Fault(name, cols.error));
    }
    r := Success(cols.value);
  }

  /** `diffmag(fn)` (lines 101-113): `read_mag`, then the flux-weighted
      reduction of `summagerr`. */
  function DiffMag(fs: Files, name: string, p: Primitives): Result<Diff, Failure> {
    var m :- Parsed(fs, name, p.parse);
    ParsedSpec(fs, name, p.parse);
    Differential(m, p)
  }

  /** Lines 130-136 of `diffmag2`: slot -2 of the first measurement set
      replaced by that of the second, then the plain-mean reference of
      `calmeanstd` subtracted. */
  function Substituted(m1: Measurements, m2: Measurements, sqrt: real -> real): Result<Diff, Failure>
    requires m1.Aligned() && m2.Aligned()
  {
    var n, n2 := |m1.mag|, |m2.mag|;
    if n < 2 || n2 < 2 then Failure(SlotIndex)
    else
      var mag := m1.mag[n - 2 := m2.mag[n2 - 2]];
      var err := m1.err[n - 2 := m2.err[n2 - 2]];
      if n == 2 then Failure(ZeroDivision)
      else
        var s := Dispersion(Comparison(mag), Comparison(err), sqrt);
        Success(Subtract(mag, err, s.mean, s.errMean, sqrt))
  }

  /** Slot -2 must exist in both sets and the first must hold a comparison
      star. The reference is the mean of the FIRST set's comparison
      magnitudes, with error the root of the sum of their squared errors
      divided by their number; the target slot -2 comes from the second
      set and every other star from the first, each minus the reference,
      errors in quadrature. */
  lemma SubstitutedSpec(m1: Measurements, m2: Measurements, sqrt: real -> real)
    requires m1.Aligned() && m2.Aligned()
    ensures var r := Substituted(m1, m2, sqrt);
            var n, n2 := |m1.mag|, |m2.mag|;
            && (r == Failure(SlotIndex) <==> n < 2 || n2 < 2)
            && (r == Failure(ZeroDivision) <==> n == 2 && n2 >= 2)
            && (r.Success? <==> n >= 3 && n2 >= 2)
            && (r.Success? ==>
                  var c, ce := m1.mag[..n - 2], m1.err[..n - 2];
                  var d := r.value;
                  && |d.mag| == |d.err| == n
                  && d.mag[n - 2] == m2.mag[n2 - 2] - Mean(c)
                  && (forall i :: 0 <= i < n && i != n - 2 ==> d.mag[i] == m1.mag[i] - Mean(c))
                  && (IsSqrt(sqrt) ==>
                        var e := Dispersion(c, ce, sqrt).errMean;
                        && QuadratureMean(e, ce)
                        && Sq(d.err[n - 2]) == Sq(m2.err[n2 - 2]) + Sq(e)
                        && forall i :: 0 <= i < n && i != n - 2 ==>
                             d.err[i] >= 0.0 && Sq(d.err[i]) == Sq(m1.err[i]) + Sq(e)))
  {
    var n, n2 := |m1.mag|, |m2.mag|;
    if n >= 3 && n2 >= 2 {
      SubstitutedMags(m1, m2, sqrt);
      if IsSqrt(sqrt) {
        SubstitutedErrs(m1, m2, sqrt);
      }
    }
  }

  /** With a comparison star in the first set, `Substituted` is the
      subtraction of the first set's plain-mean reference from the spliced
      series. */
  lemma SubstitutedUnfold(m1: Measurements, m2: Measurements, sqrt: real -> real)
    requires m1.Aligned() && m2.Aligned() && |m1.mag| >= 3 && |m2.mag| >= 2
    ensures var n, n2 := |m1.mag|, |m2.mag|;
            var s := Dispersion(m1.mag[..n - 2], m1.err[..n - 2], sqrt);
            Substituted(m1, m2, sqrt)
              == Success(Subtract(m1.mag[n - 2 := m2.mag[n2 - 2]], m1.err[n - 2 := m2.err[n2 - 2]],
                                  s.mean, s.errMean, sqrt))
  {
    var n, n2 := |m1.mag|, |m2.mag|;
    var mag := m1.mag[n - 2 := m2.mag[n2 - 2]];
    var err := m1.err[n - 2 := m2.err[n2 - 2]];
    assert Comparison(mag) == m1.mag[..n - 2];
    assert Comparison(err) == m1.err[..n - 2];
  }

  lemma SubstitutedMags(m1: Measurements, m2: Measurements, sqrt: real -> real)
    requires m1.Aligned() && m2.Aligned() && |m1.mag| >= 3 && |m2.mag| >= 2
    ensures var r := Substituted(m1, m2, sqrt);
            var n, n2 := |m1.mag|, |m2.mag|;
            var c := m1.mag[..n - 2];
            && r.Success?
            && |r.value.mag| == |r.value.err| == n
            && r.value.mag[n - 2] == m2.mag[n2 - 2] - Mean(c)
            && (forall i :: 0 <= i < n && i != n - 2 ==> r.value.mag[i] == m1.mag[i] - Mean(c))
  {
    var n, n2 := |m1.mag|, |m2.mag|;
    var mag := m1.mag[n - 2 := m2.mag[n2 - 2]];
    var err := m1.err[n - 2 := m2.err[n2 - 2]];
    var s := Dispersion(m1.mag[..n - 2], m1.err[..n - 2], sqrt);
    SubstitutedUnfold(m1, m2, sqrt);
    assert s.mean == Mean(m1.mag[..n - 2]);
    SubtractSpec(mag, err, s.mean, s.errMean, sqrt);
  }

  lemma SubstitutedErrs(m1: Measurements, m2: Measurements, sqrt: real -> real)
    requires m1.Aligned() && m2.Aligned() && |m1.mag| >= 3 && |m2.mag| >= 2 && IsSqrt(sqrt)
    ensures var r := Substituted(m1, m2, sqrt);
            var n, n2 := |m1.mag|, |m2.mag|;
            var ce := m1.err[..n - 2];
            var e := Dispersion(m1.mag[..n - 2], ce, sqrt).errMean;
            && r.Success? && |r.value.err| == n
            && QuadratureMean(e, ce)
            && Sq(r.value.err[n - 2]) == Sq(m2.err[n2 - 2]) + Sq(e)
            && forall i :: 0 <= i < n && i != n - 2 ==>
                 r.value.err[i] >= 0.0 && Sq(r.value.err[i]) == Sq(m1.err[i]) + Sq(e)
  {
    var n, n2 := |m1.mag|, |m2.mag|;
    var mag := m1.mag[n - 2 := m2.mag[n2 - 2]];
    var err := m1.err[n - 2 := m2.err[n2 - 2]];
    var ce := m1.err[..n - 2];
    var s := Dispersion(m1.mag[..n - 2], ce, sqrt);
    var d := Subtract(mag, err, s.mean, s.errMean, sqrt);
    assert Substituted(m1, m2, sqrt) == Success(d) by {
      SubstitutedUnfold(m1, m2, sqrt);
    }
    assert QuadratureMean(s.errMean, ce) by {
      DispersionSquares(m1.mag[..n - 2], ce, sqrt);
    }
    assert forall i :: 0 <= i < n ==> d.err[i] >= 0.0 && Sq(d.err[i]) == Sq(err[i]) + Sq(s.errMean) by {
      SubtractSpec(mag, err, s.mean, s.errMean, sqrt);
    }
  }

  /** What `diffmag2(fn1, fn2)` returns or raises (lines 116-136). */
  function DiffMag2Of(fs: Files, fn1: string, fn2: Option<string>, p: Primitives): Result<Diff, Failure> {
    match fn2
    case None => DiffMag(fs, fn1, p)
    case Some(name2) =>
      var m1 :- Parsed(fs, fn1, p.parse);
      var m2 :- Parsed(fs, name2, p.parse);
      ParsedSpec(fs, fn1, p.parse);
      ParsedSpec(fs, name2, p.parse);
      Substituted(m1, m2, p.sqrt)
  }

  /** Without a second file `diffmag2` is `diffmag`; with one, the first
      file is read, then the second, a failure of either ending the call
      with its error, and both sets are combined as `Substituted` says. */
  lemma DiffMag2Spec(fs: Files, fn1: string, fn2: string, p: Primitives)
    ensures DiffMag2Of(fs, fn1, None, p) == DiffMag(fs, fn1, p)
    ensures var r := DiffMag2Of(fs, fn1, Some(fn2), p);
            var a, b := Parsed(fs, fn1, p.parse), Parsed(fs, fn2, p.parse);
            && (a.Failure? ==> r == Failure(a.error))
            && (a.Success? && b.Failure? ==> r == Failure(b.error))
            && (a.Success? && b.Success? ==>
                  a.value.Aligned() && b.value.Aligned() && r == Substituted(a.value, b.value, p.sqrt))
  {
    ParsedSpec(fs, fn1, p.parse);
    ParsedSpec(fs, fn2, p.parse);
  }

  /** `diffmag2` (lines 116-136). */
  method DiffMag2(fs: Files, fn1: string, fn2: Option<string>, p: Primitives)
    returns (r: Result<Diff, Failure>)
    ensures r == DiffMag2Of(fs, fn1, fn2, p)
  {
    if fn2.None? {
      var m := ReadMag(fs, fn1, p.parse);
      if m.Failure? {
        return Failure(m.error);
      }
      ParsedSpec(fs, fn1, p.parse);
      return Differential(m.value, p);
    }
    var first := ReadMag(fs, fn1, p.parse);
    if first.Failure? {
      return Failure(first.error);
    }
    var second := ReadMag(fs, fn2.value, p.parse);
    if second.Failure? {
      return Failure(second.error);
    }
    ParsedSpec(fs, fn1, p.parse);
    ParsedSpec(fs, fn2.value, p.parse);
    r := Substitute(first.value, second.value, p.sqrt);
  }

  /** Lines 130-136 of `diffmag2`: slot -2 of the first file's three lists
      is overwritten by that of the second, then `calmeanstd` runs on the
      comparison stars. */
  method Substitute(m1: Measurements, m2: Measurements, sqrt: real -> real)
    returns (r: Result<Diff, Failure>)
    requires m1.Aligned() && m2.Aligned()
    ensures r == Substituted(m1, m2, sqrt)
  {
    var flux, mag, err := m1.flux, m1.mag, m1.err;
    if |m2.flux| < 2 || |flux| < 2 {
      return Failure(SlotIndex);
    }
    flux := flux[|flux| - 2 := m2.flux[|m2.flux| - 2]];
    mag := mag[|mag| - 2 := m2.mag[|m2.mag| - 2]];
    err := err[|err| - 2 := m2.err[|m2.err| - 2]];
    var cmp, cmpErr := Comparison(mag), Comparison(err);
    if |cmp| == 0 {
      return Failure(ZeroDivision);
    }
    var mean, sigma, errMean := MeanStd(cmp, cmpErr, sqrt);
    r := Success(Subtract(mag, err, mean, errMean, sqrt));
  }

  /** The measurement files of an exposure (lines 150-154): `name.obs`, and
      `name.obs2` when that file exists. */
  function Reduction(fs: Files, name: string, p: Primitives): Result<Diff, Failure> {
    var obs := Replace(name, ".fits", ".obs");
    var obs2 := obs + "2";
    DiffMag2Of(fs, obs, if obs2 in fs then Some(obs2) else None, p)
  }

  function Reductions(fs: Files, names: seq<string>, p: Primitives): (rs: seq<Result<Diff, Failure>>)
    ensures |rs| == |names| && forall k :: 0 <= k < |names| ==> rs[k] == Reduction(fs, names[k], p)
  {
    seq(|names|, k requires 0 <= k < |names| => Reduction(fs, names[k], p))
  }

  /** `getlightcurve` (lines 139-165): the exposures are reduced in list
      order, the first failure ends the run, and the results are sorted by
      timestamp and transposed. */
  method GetLightCurve(fs: Files, names: seq<string>, jdOf: string -> real, p: Primitives)
    returns (r: Result<LightCurve, Failure>)
    ensures r == Curve(Stamps(names, jdOf), Reductions(fs, names, p))
  {
    var jds := Stamps(names, jdOf);
    ghost var rs := Reductions(fs, names, p);
    var diffs: seq<Diff> := [];
    var k := 0;
    while k < |names|
      invariant k <= |names| && Collect(rs[..k]) == Success(diffs)
    {
      var obs := Replace(names[k], ".fits", ".obs");
      var obs2 := obs + "2";
      var d := DiffMag2(fs, obs, if obs2 in fs then Some(obs2) else None, p);
      assert rs[..k + 1][..k] == rs[..k];
      if d.Failure? {
        CollectPrefixFailure(rs, k + 1);
        return Failure(d.error);
      }
      diffs := diffs + [d.value];
      k := k + 1;
    }
    assert rs[..k] == rs;
    CollectSpec(rs);
    r := Assemble(jds, diffs);
  }

  /** Lines 260-261 of `main`: the exposure list file, without comment
      lines, reduced to the first word of each line. A blank line makes the
      comment test raise. */
  function NameList(fs: Files, listName: string): Result<seq<string>, Failure> {
    if listName !in fs then Failure(NoSuchFile(listName))
    else if !NoBlankLine(fs[listName]) then Failure(BlankLine(listName))
    else Success(KeptNames(fs[listName]))
  }

  /** The first word of every line that is not a comment. */
  function KeptNames(lines: seq<string>): seq<string>
    requires NoBlankLine(lines)
  {
    KeptLinesStart(lines);
    var kept := Uncommented(Stripped(lines));
    seq(|kept|, k requires 0 <= k < |kept| => Strip(FirstWord(kept[k])))
  }

  /** Each name is the first word of a line that is not a comment, in file
      order, so no name is empty, holds a space or starts with `#`. */
  lemma KeptNamesSpec(lines: seq<string>)
    requires NoBlankLine(lines)
    ensures var kept := Uncommented(Stripped(lines));
            var names := KeptNames(lines);
            && |names| == |kept| <= |lines|
            && forall k :: 0 <= k < |kept| ==>
                 && kept[k] in Stripped(lines) && TrimLeft(kept[k]) != []
                 && names[k] == FirstWord(kept[k])
                 && names[k] != [] && NoSpace(names[k]) && names[k][0] != '#'
  {
    KeptLinesStart(lines);
    var kept := Uncommented(Stripped(lines));
    var names := KeptNames(lines);
    forall k | 0 <= k < |kept|
      ensures names[k] == FirstWord(kept[k]) && names[k][0] != '#'
    {
      var w := FirstWord(kept[k]);
      StripWord(w);
      assert w == Split(kept[k])[0] == kept[k][..WordLength(kept[k])];
    }
  }

  /** The list file must exist and hold no blank line; its names are then
      those `KeptNames` describes. */
  lemma NameListSpec(fs: Files, listName: string)
    ensures var r := NameList(fs, listName);
            && (r == Failure(NoSuchFile(listName)) <==> listName !in fs)
            && (listName in fs ==>
                  (r == Failure(BlankLine(listName)) <==>
                     exists i :: 0 <= i < |fs[listName]| && Strip(fs[listName][i]) == []))
            && (r.Success? <==> listName in fs && NoBlankLine(fs[listName]))
            && (listName in fs && NoBlankLine(fs[listName]) ==> r == Success(KeptNames(fs[listName])))
  {
  }
}
