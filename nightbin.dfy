/** `combine_days` (17apermag_caha.py and errmag.py carry identical copies):
    a walk over time-ordered exposures that closes the open bin whenever the
    gap to the previous exposure is at least 0.3 day. A bin holds a run of
    exposures between such gaps; an exposure that follows a gap and is the
    last one starts a bin the loop never emits. */
module NightBin {
  import opened Stats

  /** The gap, in days, that separates two nights. */
  const NightGap: real := 0.3

  /** Exposure `i` follows a gap of at least NightGap. */
  predicate IsBreak(jd: seq<real>, i: int) {
    1 <= i < |jd| && jd[i] - jd[i - 1] >= NightGap
  }

  /** The first break after `lo`, or `|jd|` when there is none. */
  function NextBreak(jd: seq<real>, lo: nat): (b: nat)
    requires lo < |jd|
    ensures lo < b <= |jd|
    ensures b < |jd| ==> IsBreak(jd, b)
    ensures forall i :: lo < i < b ==> !IsBreak(jd, i)
    decreases |jd| - lo
  {
    if lo + 1 == |jd| || IsBreak(jd, lo + 1) then lo + 1 else NextBreak(jd, lo + 1)
  }

  /** The index ranges `[lo, hi)` of the bins `combine_days` emits once a bin
      has been opened at `lo`. */
  function Segments(jd: seq<real>, lo: nat): (segs: seq<(nat, nat)>)
    requires lo <= |jd|
    ensures forall k :: 0 <= k < |segs| ==> lo <= segs[k].0 < segs[k].1 <= |jd|
    decreases |jd| - lo
  {
    if lo == |jd| then []
    else
      var b := NextBreak(jd, lo);
      if b < |jd| then [(lo, b)] + Segments(jd, b)
      else if lo == |jd| - 1 && IsBreak(jd, lo) then []
      else [(lo, |jd|)]
  }

  /** A break after a run without breaks closes the run's segment there. */
  lemma SegmentsAtBreak(jd: seq<real>, lo: nat, i: nat)
    requires lo < i < |jd| && IsBreak(jd, i)
    requires forall j :: lo < j < i ==> !IsBreak(jd, j)
    ensures Segments(jd, lo) == [(lo, i)] + Segments(jd, i)
  {
    assert NextBreak(jd, lo) == i;
  }

  /** Without a later break the segment runs to the end, unless it is a
      lone final exposure that follows a break. */
  lemma SegmentsAtEnd(jd: seq<real>, lo: nat)
    requires lo < |jd|
    requires forall j :: lo < j < |jd| ==> !IsBreak(jd, j)
    ensures Segments(jd, lo) == if lo == |jd| - 1 && IsBreak(jd, lo) then [] else [(lo, |jd|)]
  {
    assert NextBreak(jd, lo) == |jd|;
  }

  /** Closing the open bin at exposure `i`: the bin ends before `i` at a
      break and after `i` at the last exposure, and what remains to emit is
      whatever the bin reopened at `i` will emit. */
  lemma SegmentsClose(jd: seq<real>, lo: nat, i: nat)
    requires lo <= i < |jd| && (0 < i ==> lo < i) && (lo == 0 || IsBreak(jd, lo))
    requires forall j :: lo < j < i ==> !IsBreak(jd, j)
    requires IsBreak(jd, i) || i == |jd| - 1
    ensures var hi := if IsBreak(jd, i) then i else i + 1;
            && lo < hi
            && Segments(jd, lo) == [(lo, hi)] + (if i < |jd| - 1 then Segments(jd, i) else [])
  {
    if IsBreak(jd, i) {
      SegmentsAtBreak(jd, lo, i);
      if i == |jd| - 1 {
        SegmentsAtEnd(jd, i);
      }
    } else {
      SegmentsAtEnd(jd, lo);
    }
  }

  /** The bookkeeping of one emission: the emitted segments followed by
      what the reopened bin will emit are still all the segments. */
  lemma AdvanceSegments(jd: seq<real>, lo: nat, i: nat, emitted: seq<(nat, nat)>)
    requires lo <= i < |jd| && (0 < i ==> lo < i) && (lo == 0 || IsBreak(jd, lo))
    requires forall j :: lo < j < i ==> !IsBreak(jd, j)
    requires IsBreak(jd, i) || i == |jd| - 1
    requires WithinSeries(emitted, |jd|) && Segments(jd, 0) == emitted + Segments(jd, lo)
    ensures var next := emitted + [(lo, if IsBreak(jd, i) then i else i + 1)];
            && (i < |jd| - 1 ==> Segments(jd, 0) == next + Segments(jd, i))
            && (i == |jd| - 1 ==> Segments(jd, 0) == next)
  {
    var hi := if IsBreak(jd, i) then i else i + 1;
    var rest := if i < |jd| - 1 then Segments(jd, i) else [];
    SegmentsClose(jd, lo, i);
    Regroup(emitted, (lo, hi), rest);
  }

  lemma Regroup(emitted: seq<(nat, nat)>, seg: (nat, nat), rest: seq<(nat, nat)>)
    ensures emitted + ([seg] + rest) == (emitted + [seg]) + rest
    ensures rest == [] ==> emitted + ([seg] + rest) == emitted + [seg]
  {
  }

  lemma WithinSeriesAppend(segs: seq<(nat, nat)>, seg: (nat, nat), n: nat)
    requires WithinSeries(segs, n) && seg.0 < seg.1 <= n
    ensures WithinSeries(segs + [seg], n)
  {
  }

  /** The open bin `tmp*` holds exposures `lo` up to `hi` of the three
      series. */
  predicate Window(jd: seq<real>, mag: seq<real>, err: seq<real>, lo: nat, hi: nat,
                   tmpJd: seq<real>, tmpMag: seq<real>, tmpErr: seq<real>)
  {
    && lo <= hi <= |jd| && |jd| <= |mag| && |jd| <= |err|
    && tmpJd == jd[lo..hi] && tmpMag == mag[lo..hi] && tmpErr == err[lo..hi]
  }

  lemma Grow(jd: seq<real>, mag: seq<real>, err: seq<real>, lo: nat, hi: nat,
             tmpJd: seq<real>, tmpMag: seq<real>, tmpErr: seq<real>)
    requires Window(jd, mag, err, lo, hi, tmpJd, tmpMag, tmpErr) && hi < |jd|
    ensures Window(jd, mag, err, lo, hi + 1, tmpJd + [jd[hi]], tmpMag + [mag[hi]], tmpErr + [err[hi]])
  {
    assert jd[lo..hi + 1] == jd[lo..hi] + [jd[hi]];
    assert mag[lo..hi + 1] == mag[lo..hi] + [mag[hi]];
    assert err[lo..hi + 1] == err[lo..hi] + [err[hi]];
  }

  lemma Reopen(jd: seq<real>, mag: seq<real>, err: seq<real>, i: nat)
    requires i < |jd| <= |mag| && |jd| <= |err|
    ensures Window(jd, mag, err, i, i + 1, [jd[i]], [mag[i]], [err[i]])
  {
    assert jd[i..i + 1] == [jd[i]];
    assert mag[i..i + 1] == [mag[i]];
    assert err[i..i + 1] == [err[i]];
  }

  /** One emitted bin: mean timestamp, mean magnitude, and the scatter and
      the mean error added in quadrature. */
  datatype Night = Night(jd: real, mag: real, err: real)

  /** The bin made of the exposures `jd`, `mag`, `err`. */
  function NightOf(jd: seq<real>, mag: seq<real>, err: seq<real>, sqrt: real -> real): Night
    requires |jd| > 0 && |mag| > 0 && |err| > 0
  {
    var s := Dispersion(mag, err, sqrt);
    Night(Mean(jd), s.mean, sqrt(Sq(s.sigma) + Sq(s.errMean)))
  }

  function Bin(jd: seq<real>, mag: seq<real>, err: seq<real>, seg: (nat, nat),
               sqrt: real -> real): Night
    requires seg.0 < seg.1 <= |jd| && |jd| <= |mag| && |jd| <= |err|
  {
    NightOf(jd[seg.0..seg.1], mag[seg.0..seg.1], err[seg.0..seg.1], sqrt)
  }

  predicate WithinSeries(segs: seq<(nat, nat)>, n: nat) {
    forall k :: 0 <= k < |segs| ==> segs[k].0 < segs[k].1 <= n
  }

  /** The bins of a list of segments, in order. */
  function Bins(jd: seq<real>, mag: seq<real>, err: seq<real>, segs: seq<(nat, nat)>,
                sqrt: real -> real): (bins: seq<Night>)
    requires WithinSeries(segs, |jd|) && |jd| <= |mag| && |jd| <= |err|
    ensures |bins| == |segs|
  {
    seq(|segs|, k requires 0 <= k < |segs| => Bin(jd, mag, err, segs[k], sqrt))
  }

  /** The specification of `combine_days`: one bin per segment. */
  function Combined(jd: seq<real>, mag: seq<real>, err: seq<real>, sqrt: real -> real): seq<Night>
    requires |jd| <= |mag| && |jd| <= |err|
  {
    Bins(jd, mag, err, Segments(jd, 0), sqrt)
  }

  /** The three arrays `combine_days` returns. */
  function Jds(bins: seq<Night>): seq<real> {
    seq(|bins|, k requires 0 <= k < |bins| => bins[k].jd)
  }

  function Mags(bins: seq<Night>): seq<real> {
    seq(|bins|, k requires 0 <= k < |bins| => bins[k].mag)
  }

  function Errs(bins: seq<Night>): seq<real> {
    seq(|bins|, k requires 0 <= k < |bins| => bins[k].err)
  }

  /** A bin's timestamp is the mean of its exposures' timestamps alone. */
  lemma BinJd(jd: seq<real>, mag: seq<real>, err: seq<real>, seg: (nat, nat), sqrt: real -> real)
    requires seg.0 < seg.1 <= |jd| && |jd| <= |mag| && |jd| <= |err|
    ensures Bin(jd, mag, err, seg, sqrt).jd == Mean(jd[seg.0..seg.1])
  {
  }

  /** The bin timestamps do not depend on the magnitudes or the errors. */
  lemma {:induction false} TimestampsOnly(jd: seq<real>, mag1: seq<real>, err1: seq<real>,
                                          mag2: seq<real>, err2: seq<real>, sqrt: real -> real)
    requires |jd| <= |mag1| && |jd| <= |err1| && |jd| <= |mag2| && |jd| <= |err2|
    ensures Jds(Combined(jd, mag1, err1, sqrt)) == Jds(Combined(jd, mag2, err2, sqrt))
  {
    var segs := Segments(jd, 0);
    var a, b := Combined(jd, mag1, err1, sqrt), Combined(jd, mag2, err2, sqrt);
    forall k | 0 <= k < |segs|
      ensures a[k].jd == b[k].jd
    {
      BinJd(jd, mag1, err1, segs[k], sqrt);
      BinJd(jd, mag2, err2, segs[k], sqrt);
    }
  }

  lemma ColumnsAppend(bins: seq<Night>, b: Night)
    ensures Jds(bins + [b]) == Jds(bins) + [b.jd]
    ensures Mags(bins + [b]) == Mags(bins) + [b.mag]
    ensures Errs(bins + [b]) == Errs(bins) + [b.err]
  {
    assert Jds(bins + [b]) == Jds(bins) + [b.jd];
    assert Mags(bins + [b]) == Mags(bins) + [b.mag];
    assert Errs(bins + [b]) == Errs(bins) + [b.err];
  }

  /** The output lists hold the bins of the segments emitted so far. */
  ghost predicate Produced(jd: seq<real>, mag: seq<real>, err: seq<real>, sqrt: real -> real,
                           emitted: seq<(nat, nat)>, nJd: seq<real>, nMag: seq<real>, nErr: seq<real>)
  {
    && |jd| <= |mag| && |jd| <= |err| && WithinSeries(emitted, |jd|)
    && var bins := Bins(jd, mag, err, emitted, sqrt);
       nJd == Jds(bins) && nMag == Mags(bins) && nErr == Errs(bins)
  }

  /** Lines 177-182 of 17apermag_caha.py: the statistics of the open bin
      `jd[lo..hi]` appended to the three output lists. */
  method EmitBin(jd: seq<real>, mag: seq<real>, err: seq<real>, sqrt: real -> real,
                 nJd: seq<real>, nMag: seq<real>, nErr: seq<real>,
                 tmpJd: seq<real>, tmpMag: seq<real>, tmpErr: seq<real>,
                 ghost emitted: seq<(nat, nat)>, ghost lo: nat, ghost hi: nat)
    returns (nJd': seq<real>, nMag': seq<real>, nErr': seq<real>)
    requires Produced(jd, mag, err, sqrt, emitted, nJd, nMag, nErr) && lo < hi <= |jd|
    requires Window(jd, mag, err, lo, hi, tmpJd, tmpMag, tmpErr)
    ensures Produced(jd, mag, err, sqrt, emitted + [(lo, hi)], nJd', nMag', nErr')
  {
    var meanJd := Mean(tmpJd);
    var meanMag, sigma, meanErr := MeanStd(tmpMag, tmpErr, sqrt);
    var newErr := sqrt(Sq(sigma) + Sq(meanErr));
    WithinSeriesAppend(emitted, (lo, hi), |jd|);
    ghost var bins := Bins(jd, mag, err, emitted, sqrt);
    assert Bins(jd, mag, err, emitted + [(lo, hi)], sqrt) == bins + [Night(meanJd, meanMag, newErr)];
    ColumnsAppend(bins, Night(meanJd, meanMag, newErr));
    nJd' := nJd + [meanJd];
    nMag' := nMag + [meanMag];
    nErr' := nErr + [newErr];
  }

  /** Emits the open bin `jd[lo..hi]` when exposure `i` breaks it off or is
      the last one: `hi` is `i` at a break and `i + 1` otherwise. */
  method CloseBin(jd: seq<real>, mag: seq<real>, err: seq<real>, sqrt: real -> real,
                  nJd: seq<real>, nMag: seq<real>, nErr: seq<real>,
                  tmpJd: seq<real>, tmpMag: seq<real>, tmpErr: seq<real>,
                  ghost emitted: seq<(nat, nat)>, ghost lo: nat, i: nat)
    returns (nJd': seq<real>, nMag': seq<real>, nErr': seq<real>, ghost emitted': seq<(nat, nat)>)
    requires lo <= i < |jd| && (0 < i ==> lo < i) && (lo == 0 || IsBreak(jd, lo))
    requires forall j :: lo < j < i ==> !IsBreak(jd, j)
    requires IsBreak(jd, i) || i == |jd| - 1
    requires Segments(jd, 0) == emitted + Segments(jd, lo)
    requires Produced(jd, mag, err, sqrt, emitted, nJd, nMag, nErr)
    requires Window(jd, mag, err, lo, if IsBreak(jd, i) then i else i + 1, tmpJd, tmpMag, tmpErr)
    ensures Produced(jd, mag, err, sqrt, emitted', nJd', nMag', nErr')
    ensures i < |jd| - 1 ==> Segments(jd, 0) == emitted' + Segments(jd, i)
    ensures i == |jd| - 1 ==> Segments(jd, 0) == emitted'
  {
    ghost var hi: nat := if IsBreak(jd, i) then i else i + 1;
    AdvanceSegments(jd, lo, i, emitted);
    nJd', nMag', nErr' := EmitBin(jd, mag, err, sqrt, nJd, nMag, nErr, tmpJd, tmpMag, tmpErr, emitted, lo, hi);
    emitted' := emitted + [(lo, hi)];
  }

  /** `combine_days(jdLst, magLst, magErrLst)`: the open bin `tmp*` grows
      while gaps stay below NightGap; a gap of NightGap or more, or the last
      index, emits it and reopens it with the current exposure only. */
  method CombineDays(jd: seq<real>, mag: seq<real>, err: seq<real>, sqrt: real -> real)
    returns (nJd: seq<real>, nMag: seq<real>, nErr: seq<real>)
    requires |jd| <= |mag| && |jd| <= |err|
    ensures var bins := Combined(jd, mag, err, sqrt);
            nJd == Jds(bins) && nMag == Mags(bins) && nErr == Errs(bins)
  {
    nJd, nMag, nErr := [], [], [];
    var tmpJd, tmpMag, tmpErr: seq<real> := [], [], [];
    ghost var lo: nat := 0;
    ghost var emitted: seq<(nat, nat)> := [];
    var i := 0;
    while i < |jd|
      invariant lo <= i <= |jd|
      invariant Window(jd, mag, err, lo, i, tmpJd, tmpMag, tmpErr)
      invariant 0 < i ==> lo < i
      invariant i < |jd| ==> lo == 0 || IsBreak(jd, lo)
      invariant forall j :: lo < j < i ==> !IsBreak(jd, j)
      invariant i < |jd| ==> Segments(jd, 0) == emitted + Segments(jd, lo)
      invariant i == |jd| ==> Segments(jd, 0) == emitted
      invariant Produced(jd, mag, err, sqrt, emitted, nJd, nMag, nErr)
    {
      ghost var isBreak := IsBreak(jd, i);
      assert 0 < i ==> tmpJd[|tmpJd| - 1] == jd[i - 1];
      if |tmpJd| == 0 || jd[i] - tmpJd[|tmpJd| - 1] < NightGap {
        Grow(jd, mag, err, lo, i, tmpJd, tmpMag, tmpErr);
        tmpJd := tmpJd + [jd[i]];
        tmpMag := tmpMag + [mag[i]];
        tmpErr := tmpErr + [err[i]];
      }
      if jd[i] - tmpJd[|tmpJd| - 1] >= NightGap || i == |jd| - 1 {
        assert lo + |tmpJd| == if isBreak then i else i + 1;
        nJd, nMag, nErr, emitted := CloseBin(jd, mag, err, sqrt, nJd, nMag, nErr, tmpJd, tmpMag, tmpErr, emitted, lo, i);
        Reopen(jd, mag, err, i);
        tmpJd, tmpMag, tmpErr := [jd[i]], [mag[i]], [err[i]];
        lo := i;
      }
      assert Window(jd, mag, err, lo, i + 1, tmpJd, tmpMag, tmpErr);
      i := i + 1;
    }
  }

  /** The shape of the segments from a bin opened at `lo`: they start at
      `lo`, follow each other without gap or overlap, each later one starts
      at a break, none contains a break, and the last one ends at the end of
      the series, or one before it when the final exposure follows a break;
      there are none only for that final exposure alone. */
  lemma SegmentsShape(jd: seq<real>, lo: nat)
    requires lo < |jd| && (lo == 0 || IsBreak(jd, lo))
    ensures var segs := Segments(jd, lo);
            && (segs == [] <==> lo == |jd| - 1 && IsBreak(jd, lo))
            && (segs != [] ==> segs[0].0 == lo)
            && (forall k :: 0 <= k < |segs| - 1 ==> segs[k].1 == segs[k + 1].0)
            && (forall k :: 0 < k < |segs| ==> IsBreak(jd, segs[k].0))
            && (forall k, j :: 0 <= k < |segs| && segs[k].0 < j < segs[k].1 ==> !IsBreak(jd, j))
            && (segs != [] ==> segs[|segs| - 1].1 == if IsBreak(jd, |jd| - 1) then |jd| - 1 else |jd|)
  {
    SegmentsStart(jd, lo);
    SegmentsChain(jd, lo);
    forall k, j | 0 <= k < |Segments(jd, lo)| && Segments(jd, lo)[k].0 < j < Segments(jd, lo)[k].1
      ensures !IsBreak(jd, j)
    {
      SegmentInside(jd, lo, k, j);
    }
    SegmentsEnd(jd, lo);
  }

  lemma SegmentsStart(jd: seq<real>, lo: nat)
    requires lo < |jd| && (lo == 0 || IsBreak(jd, lo))
    ensures var segs := Segments(jd, lo);
            && (segs == [] <==> lo == |jd| - 1 && IsBreak(jd, lo))
            && (segs != [] ==> segs[0].0 == lo)
  {
    var b := NextBreak(jd, lo);
    if b < |jd| {
      assert Segments(jd, lo) == [(lo, b)] + Segments(jd, b);
    }
  }

  /** Each segment but the first starts where the one before ends, at a
      break. */
  lemma {:induction false} SegmentsChain(jd: seq<real>, lo: nat)
    requires lo <= |jd|
    ensures var segs := Segments(jd, lo);
            && (forall k :: 0 <= k < |segs| - 1 ==> segs[k].1 == segs[k + 1].0)
            && (forall k :: 0 < k < |segs| ==> IsBreak(jd, segs[k].0))
    decreases |jd| - lo
  {
    if lo < |jd| {
      var b := NextBreak(jd, lo);
      if b < |jd| {
        SegmentsChain(jd, b);
        SegmentsStart(jd, b);
        var rest := Segments(jd, b);
        var segs := Segments(jd, lo);
        assert segs == [(lo, b)] + rest;
        forall k | 0 < k < |segs|
          ensures segs[k] == rest[k - 1]
        {
        }
      }
    }
  }

  /** No segment contains a break after its first exposure. */
  lemma {:induction false} SegmentInside(jd: seq<real>, lo: nat, k: nat, j: int)
    requires lo <= |jd| && k < |Segments(jd, lo)|
    requires Segments(jd, lo)[k].0 < j < Segments(jd, lo)[k].1
    ensures !IsBreak(jd, j)
    decreases |jd| - lo
  {
    var b := NextBreak(jd, lo);
    var segs := Segments(jd, lo);
    if b < |jd| {
      var rest := Segments(jd, b);
      assert segs == [(lo, b)] + rest;
      if k > 0 {
        assert segs[k] == rest[k - 1];
        SegmentInside(jd, b, k - 1, j);
      }
    }
  }

  /** The last segment ends at the end of the series, or one before it when
      the final exposure follows a break. */
  lemma {:induction false} SegmentsEnd(jd: seq<real>, lo: nat)
    requires lo <= |jd|
    ensures var segs := Segments(jd, lo);
            segs != [] ==> segs[|segs| - 1].1 == if IsBreak(jd, |jd| - 1) then |jd| - 1 else |jd|
    decreases |jd| - lo
  {
    if lo < |jd| {
      var b := NextBreak(jd, lo);
      if b < |jd| {
        SegmentsEnd(jd, b);
        var rest := Segments(jd, b);
        var segs := Segments(jd, lo);
        assert segs == [(lo, b)] + rest;
        if rest == [] {
          SegmentsStart(jd, b);
          assert b == |jd| - 1;
        } else {
          assert segs[|segs| - 1] == rest[|rest| - 1];
        }
      }
    }
  }

  /** Tiling of the whole series: bins start at 0, are contiguous, and so in
      order and disjoint. */
  lemma SegmentsOrdered(jd: seq<real>)
    ensures var segs := Segments(jd, 0);
            && (segs == [] <==> |jd| == 0)
            && (forall k1, k2 :: 0 <= k1 < k2 < |segs| ==> segs[k1].1 <= segs[k2].0)
  {
    var segs := Segments(jd, 0);
    if |jd| > 0 {
      SegmentsShape(jd, 0);
      forall k1, k2 | 0 <= k1 < k2 < |segs|
        ensures segs[k1].1 <= segs[k2].0
      {
        ChainOrdered(segs, k1, k2);
      }
    }
  }

  lemma {:induction false} ChainOrdered(segs: seq<(nat, nat)>, k1: nat, k2: nat)
    requires forall k :: 0 <= k < |segs| ==> segs[k].0 < segs[k].1
    requires forall k :: 0 <= k < |segs| - 1 ==> segs[k].1 == segs[k + 1].0
    requires k1 < k2 < |segs|
    ensures segs[k1].1 <= segs[k2].0
    decreases k2 - k1
  {
    if k1 + 1 < k2 {
      ChainOrdered(segs, k1 + 1, k2);
    }
  }

  /** Exposure `i` lands in some bin. */
  ghost predicate Binned(segs: seq<(nat, nat)>, i: nat) {
    exists k :: 0 <= k < |segs| && segs[k].0 <= i < segs[k].1
  }

  /** A bin that ends before exposure `i` does not change whether `i` is
      binned. */
  lemma BinnedCons(head: (nat, nat), rest: seq<(nat, nat)>, i: nat)
    requires head.1 <= i
    ensures Binned([head] + rest, i) <==> Binned(rest, i)
  {
    var segs := [head] + rest;
    if Binned(rest, i) {
      var k :| 0 <= k < |rest| && rest[k].0 <= i < rest[k].1;
      assert segs[k + 1] == rest[k];
    }
    if Binned(segs, i) {
      var k :| 0 <= k < |segs| && segs[k].0 <= i < segs[k].1;
      assert rest[k - 1] == segs[k];
    }
  }

  lemma {:induction false} CoverageFrom(jd: seq<real>, lo: nat, i: nat)
    requires lo <= i < |jd| && (lo == 0 || IsBreak(jd, lo))
    ensures Binned(Segments(jd, lo), i) <==> !(i == |jd| - 1 && IsBreak(jd, i))
    decreases |jd| - lo
  {
    var segs := Segments(jd, lo);
    var b := NextBreak(jd, lo);
    if b < |jd| {
      var rest := Segments(jd, b);
      assert segs == [(lo, b)] + rest;
      if i < b {
        assert segs[0].0 <= i < segs[0].1;
        if i == |jd| - 1 {
          assert false;
        }
      } else {
        CoverageFrom(jd, b, i);
        BinnedCons((lo, b), rest, i);
      }
    } else if lo == |jd| - 1 && IsBreak(jd, lo) {
      assert segs == [];
    } else {
      assert segs == [(lo, |jd|)];
      assert segs[0].0 <= i < segs[0].1;
    }
  }

  /** Every exposure is binned except the last one when it follows a gap
      of NightGap or more: that one starts a bin the loop never emits. */
  lemma Coverage(jd: seq<real>, i: nat)
    requires i < |jd|
    ensures Binned(Segments(jd, 0), i) <==> !(i == |jd| - 1 && IsBreak(jd, i))
  {
    CoverageFrom(jd, 0, i);
  }

  /** The number of breaks among the first `i` exposures. */
  function BreakCount(jd: seq<real>, i: nat): nat
    requires i <= |jd|
  {
    if i == 0 then 0 else BreakCount(jd, i - 1) + (if IsBreak(jd, i - 1) then 1 else 0)
  }

  lemma {:induction false} BreakCountFlat(jd: seq<real>, lo: nat, b: nat)
    requires lo < b <= |jd|
    requires forall j :: lo < j < b ==> !IsBreak(jd, j)
    ensures BreakCount(jd, b) == BreakCount(jd, lo + 1)
    decreases b - lo
  {
    if lo + 1 < b {
      BreakCountFlat(jd, lo, b - 1);
    }
  }

  lemma {:induction false} CountFrom(jd: seq<real>, lo: nat)
    requires lo < |jd| && (lo == 0 || IsBreak(jd, lo))
    ensures |Segments(jd, lo)| ==
              BreakCount(jd, |jd|) - BreakCount(jd, lo + 1) + (if IsBreak(jd, |jd| - 1) then 0 else 1)
    decreases |jd| - lo
  {
    var b := NextBreak(jd, lo);
    BreakCountFlat(jd, lo, b);
    if b < |jd| {
      CountFrom(jd, b);
      assert BreakCount(jd, b + 1) == BreakCount(jd, b) + 1;
    }
  }

  /** The number of bins is the number of breaks, plus one unless the last
      exposure follows a break. */
  lemma BinCount(jd: seq<real>)
    ensures |Segments(jd, 0)| ==
              BreakCount(jd, |jd|) + (if |jd| > 0 && !IsBreak(jd, |jd| - 1) then 1 else 0)
  {
    if |jd| > 0 {
      CountFrom(jd, 0);
      assert BreakCount(jd, 1) == 0;
    }
  }

  /** Each bin's error squared is the scatter squared plus the mean error
      squared; a bin of one exposure keeps its timestamp and magnitude and
      reports its error times the square root of two. */
  lemma BinError(jd: seq<real>, mag: seq<real>, err: seq<real>, seg: (nat, nat), sqrt: real -> real)
    requires seg.0 < seg.1 <= |jd| && |jd| <= |mag| && |jd| <= |err| && IsSqrt(sqrt)
    ensures var b := Bin(jd, mag, err, seg, sqrt);
            var s := Dispersion(mag[seg.0..seg.1], err[seg.0..seg.1], sqrt);
            && b.err >= 0.0 && Sq(b.err) == Sq(s.sigma) + Sq(s.errMean)
            && (seg.1 == seg.0 + 1 ==>
                  b.jd == jd[seg.0] && b.mag == mag[seg.0] && Sq(b.err) == 2.0 * Sq(err[seg.0]))
  {
    var m, e := mag[seg.0..seg.1], err[seg.0..seg.1];
    var s := Dispersion(m, e, sqrt);
    SqNonNegative(s.sigma);
    SqNonNegative(s.errMean);
    SqrtAt(sqrt, Sq(s.sigma) + Sq(s.errMean));
    if seg.1 == seg.0 + 1 {
      var t := jd[seg.0..seg.1];
      assert t == [jd[seg.0]] && m == [mag[seg.0]] && e == [err[seg.0]];
      assert t[..0] == [] && m[..0] == [] && e[..0] == [];
      assert Sum(t) == jd[seg.0] && Sum(m) == mag[seg.0];
      assert SumSquares(e) == Sq(err[seg.0]);
      DispersionSquares(m, e, sqrt);
      assert Sq(s.errMean) == Sq(err[seg.0]);
    }
  }

  /** Two exposures on one night and two more 0.4 day later: the gap of 0.1
      keeps the first two together, the gap of 0.4 opens a second bin that
      the last exposure joins; with that last exposure removed, the exposure
      at 0.5 follows a break as the final one and is dropped. */
  lemma Examples()
    ensures Segments([0.0, 0.1, 0.5, 0.6], 0) == [(0, 2), (2, 4)]
    ensures Segments([0.0, 0.1, 0.5], 0) == [(0, 2)]
  {
    var a := [0.0, 0.1, 0.5, 0.6];
    assert !IsBreak(a, 1) && IsBreak(a, 2) && !IsBreak(a, 3);
    assert NextBreak(a, 0) == 2;
    assert NextBreak(a, 2) == 4;
    var c := [0.0, 0.1, 0.5];
    assert !IsBreak(c, 1) && IsBreak(c, 2);
    assert NextBreak(c, 0) == 2;
    assert NextBreak(c, 2) == 3;
  }
}
