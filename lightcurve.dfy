/** Light-curve assembly shared by both `getlightcurve` functions: the
    exposures' timestamps are sorted by `np.argsort`, the per-exposure
    reductions are permuted the same way, and the exposure x star matrices
    are transposed into one series per star. */
module LightCurve {
  import opened Outcomes
  import opened Photometry

  /** What `getlightcurve` returns: ascending timestamps and, per star, its
      differential magnitudes and errors in that order. */
  datatype LightCurve = LightCurve(jd: seq<real>, mag: seq<seq<real>>, err: seq<seq<real>>)

  predicate InRange(idx: seq<nat>, n: nat) {
    forall a :: 0 <= a < |idx| ==> idx[a] < n
  }

  /** `key[idx]` is ascending. */
  predicate SortedBy(key: seq<real>, idx: seq<nat>)
    requires InRange(idx, |key|)
  {
    forall a, b :: 0 <= a < b < |idx| ==> key[idx[a]] <= key[idx[b]]
  }

  function Range(n: nat): (r: seq<nat>)
    ensures |r| == n && forall i :: 0 <= i < n ==> r[i] == i
  {
    seq(n, i requires 0 <= i < n => i)
  }

  /** `idx` lists each of 0 .. n-1 exactly once. */
  ghost predicate IsPermutation(idx: seq<nat>, n: nat) {
    multiset(idx) == multiset(Range(n))
  }

  /** Every index of `r` is one of `idx` or `k`, so its key is bounded when
      theirs are. */
  lemma KeysBounded(key: seq<real>, r: seq<nat>, idx: seq<nat>, k: nat, bound: real)
    requires InRange(r, |key|) && InRange(idx, |key|) && k < |key|
    requires multiset(r) == multiset(idx) + multiset{k}
    requires key[k] <= bound && forall a :: 0 <= a < |idx| ==> key[idx[a]] <= bound
    ensures forall a :: 0 <= a < |r| ==> key[r[a]] <= bound
  {
    forall a | 0 <= a < |r|
      ensures key[r[a]] <= bound
    {
      assert r[a] in multiset(r);
      if r[a] != k {
        assert r[a] in multiset(idx);
        var b :| 0 <= b < |idx| && idx[b] == r[a];
      }
    }
  }

  /** Appending an index whose key bounds all the others keeps the order. */
  lemma SortedSnoc(key: seq<real>, s: seq<nat>, x: nat)
    requires InRange(s, |key|) && SortedBy(key, s) && x < |key|
    requires forall a :: 0 <= a < |s| ==> key[s[a]] <= key[x]
    ensures InRange(s + [x], |key|) && SortedBy(key, s + [x])
  {
    var t := s + [x];
    forall a, b | 0 <= a < b < |t|
      ensures key[t[a]] <= key[t[b]]
    {
      assert t[a] == s[a];
      if b < |s| {
        assert t[b] == s[b];
      }
    }
  }

  /** The last index of a sorted list has the largest key. */
  lemma SortedLast(key: seq<real>, s: seq<nat>)
    requires InRange(s, |key|) && SortedBy(key, s) && |s| > 0
    ensures forall a :: 0 <= a < |s| ==> key[s[a]] <= key[s[|s| - 1]]
  {
  }

  /** Inserts index `k` after every index whose key is at most `key[k]`. */
  function Insert(key: seq<real>, idx: seq<nat>, k: nat): (r: seq<nat>)
    requires InRange(idx, |key|) && SortedBy(key, idx) && k < |key|
    ensures |r| == |idx| + 1 && InRange(r, |key|) && SortedBy(key, r)
    ensures multiset(r) == multiset(idx) + multiset{k}
  {
    if |idx| == 0 then [k]
    else
      var init, last := idx[..|idx| - 1], idx[|idx| - 1];
      assert idx == init + [last];
      SortedLast(key, idx);
      if key[last] <= key[k] then
        SortedSnoc(key, idx, k);
        idx + [k]
      else
        var r := Insert(key, init, k);
        KeysBounded(key, r, init, k, key[last]);
        SortedSnoc(key, r, last);
        r + [last]
  }

  /** The order `np.argsort(jdlst)` returns for the first `n` timestamps. The
      order it picks among equal timestamps is unspecified; this one keeps
      them in input order. */
  function ArgSort(key: seq<real>, n: nat): (idx: seq<nat>)
    requires n <= |key|
    ensures |idx| == n && InRange(idx, |key|) && SortedBy(key, idx)
    ensures multiset(idx) == multiset(Range(n))
  {
    if n == 0 then []
    else
      assert Range(n) == Range(n - 1) + [n - 1];
      Insert(key, ArgSort(key, n - 1), n - 1)
  }

  /** `a[idx]` for a one-dimensional array. */
  function Select<T>(s: seq<T>, idx: seq<nat>): (r: seq<T>)
    requires InRange(idx, |s|)
    ensures |r| == |idx| && forall j :: 0 <= j < |idx| ==> r[j] == s[idx[j]]
  {
    seq(|idx|, j requires 0 <= j < |idx| => s[idx[j]])
  }

  lemma SelectAppend<T>(s: seq<T>, a: seq<nat>, b: seq<nat>)
    requires InRange(a, |s|) && InRange(b, |s|)
    ensures InRange(a + b, |s|) && Select(s, a + b) == Select(s, a) + Select(s, b)
  {
  }

  /** An index list without its entry `j`. */
  function Without(b: seq<nat>, j: nat): (rest: seq<nat>)
    requires j < |b|
    ensures |rest| == |b| - 1
  {
    b[..j] + b[j + 1..]
  }

  /** Removing entry `j` of an index list removes one occurrence of it. */
  lemma RemoveAt(b: seq<nat>, j: nat, n: nat)
    requires j < |b| && InRange(b, n)
    ensures InRange(Without(b, j), n) && multiset(Without(b, j)) == multiset(b) - multiset{b[j]}
  {
    var front: seq<nat>, back: seq<nat> := b[..j], b[j + 1..];
    assert b == front + [b[j]] + back;
    forall i | 0 <= i < |front + back| ensures (front + back)[i] < n {
      if i < j { assert (front + back)[i] == b[i]; } else { assert (front + back)[i] == b[i + 1]; }
    }
  }

  /** Selecting through an index list is selecting through it without entry
      `j`, plus the element entry `j` picks. */
  lemma SelectRemoveAt<T>(s: seq<T>, b: seq<nat>, j: nat)
    requires j < |b| && InRange(b, |s|)
    ensures InRange(Without(b, j), |s|)
    ensures multiset(Select(s, b)) == multiset(Select(s, Without(b, j))) + multiset{s[b[j]]}
  {
    RemoveAt(b, j, |s|);
    var front: seq<nat>, back: seq<nat> := b[..j], b[j + 1..];
    var mid: seq<nat> := [b[j]];
    assert InRange(front, |s|) && InRange(back, |s|) && InRange(mid, |s|);
    assert b == (front + mid) + back;
    SelectAppend(s, front, mid);
    SelectAppend(s, front + mid, back);
    SelectAppend(s, front, back);
  }

  /** Permuting the indices permutes the selected elements. */
  lemma {:induction false} SelectPermutation<T>(s: seq<T>, a: seq<nat>, b: seq<nat>)
    requires InRange(a, |s|) && InRange(b, |s|) && multiset(a) == multiset(b)
    ensures multiset(Select(s, a)) == multiset(Select(s, b))
    decreases |a|
  {
    if |a| == 0 {
      assert |b| == |multiset(b)| == 0;
    } else {
      var x := a[|a| - 1];
      assert x in multiset(b) by {
        assert x in multiset(a);
      }
      var j :| 0 <= j < |b| && b[j] == x;
      RemoveBoth(a, b, |a| - 1, j, |s|);
      SelectPermutation(s, Without(a, |a| - 1), Without(b, j));
      SelectRemoveAt(s, a, |a| - 1);
      SelectRemoveAt(s, b, j);
    }
  }

  /** Removing the same index from two permutations of each other leaves
      two permutations of each other. */
  lemma RemoveBoth(a: seq<nat>, b: seq<nat>, i: nat, j: nat, n: nat)
    requires InRange(a, n) && InRange(b, n) && multiset(a) == multiset(b)
    requires i < |a| && j < |b| && a[i] == b[j]
    ensures InRange(Without(a, i), n) && InRange(Without(b, j), n)
    ensures multiset(Without(a, i)) == multiset(Without(b, j))
  {
    RemoveAt(a, i, n);
    RemoveAt(b, j, n);
  }

  /** The rows of a matrix all have `width` entries. */
  predicate Rows(m: seq<seq<real>>, width: nat) {
    forall j :: 0 <= j < |m| ==> |m[j]| == width
  }

  /** `.transpose()` of a rectangular matrix. */
  function Transpose(m: seq<seq<real>>, width: nat): (t: seq<seq<real>>)
    requires Rows(m, width)
    ensures |t| == width && Rows(t, |m|)
    ensures forall s, j :: 0 <= s < width && 0 <= j < |m| ==> t[s][j] == m[j][s]
  {
    seq(width, s requires 0 <= s < width => seq(|m|, j requires 0 <= j < |m| => m[j][s]))
  }

  /** The number of stars: that of the first exposure, none without one. */
  function Width(diffs: seq<Diff>): nat {
    if |diffs| == 0 then 0 else |diffs[0].mag|
  }

  /** Every exposure has the same number of stars, so numpy builds a
      two-dimensional array. */
  predicate Rectangular(diffs: seq<Diff>) {
    forall j :: 0 <= j < |diffs| ==> |diffs[j].mag| == Width(diffs) && |diffs[j].err| == Width(diffs)
  }

  function Mags(diffs: seq<Diff>): (m: seq<seq<real>>)
    ensures |m| == |diffs| && forall j :: 0 <= j < |diffs| ==> m[j] == diffs[j].mag
  {
    seq(|diffs|, j requires 0 <= j < |diffs| => diffs[j].mag)
  }

  function Errs(diffs: seq<Diff>): (m: seq<seq<real>>)
    ensures |m| == |diffs| && forall j :: 0 <= j < |diffs| ==> m[j] == diffs[j].err
  {
    seq(|diffs|, j requires 0 <= j < |diffs| => diffs[j].err)
  }

  /** Lines 146-147 and 159-160 of 17apermag_caha.py: sort the timestamps,
      permute the exposures alike and transpose. */
  function Assemble(jds: seq<real>, diffs: seq<Diff>): Result<LightCurve, Failure>
    requires |jds| == |diffs|
  {
    if !Rectangular(diffs) then Failure(Ragged)
    else
      var arg := ArgSort(jds, |jds|);
      var w := Width(diffs);
      Success(LightCurve(Select(jds, arg), Transpose(Select(Mags(diffs), arg), w),
                         Transpose(Select(Errs(diffs), arg), w)))
  }

  /** The light curve: timestamps in ascending order, a permutation of the
      input ones; one row per star; and entry `j` of star `s`'s row is star
      `s` of the exposure whose timestamp is entry `j` of the timestamps. */
  lemma AssembleSpec(jds: seq<real>, diffs: seq<Diff>)
    requires |jds| == |diffs|
    ensures Assemble(jds, diffs).Success? <==> Rectangular(diffs)
    ensures Assemble(jds, diffs).Success? ==>
              var c := Assemble(jds, diffs).value;
              var arg := ArgSort(jds, |jds|);
              var n, w := |jds|, Width(diffs);
              && IsPermutation(arg, n)
              && (forall a, b :: 0 <= a < b < n ==> c.jd[a] <= c.jd[b])
              && multiset(c.jd) == multiset(jds)
              && |c.jd| == n && |c.mag| == w && |c.err| == w
              && (forall s :: 0 <= s < w ==> |c.mag[s]| == n && |c.err[s]| == n)
              && (forall j :: 0 <= j < n ==> c.jd[j] == jds[arg[j]])
              && (forall s, j :: 0 <= s < w && 0 <= j < n ==>
                    c.mag[s][j] == diffs[arg[j]].mag[s] && c.err[s][j] == diffs[arg[j]].err[s])
  {
    if Rectangular(diffs) {
      var arg := ArgSort(jds, |jds|);
      var c := Assemble(jds, diffs).value;
      SelectPermutation(jds, arg, Range(|jds|));
      assert Select(jds, Range(|jds|)) == jds;
    }
  }

  /** `[get_jd(name) for name in namelst]`. */
  function Stamps(names: seq<string>, jdOf: string -> real): (jds: seq<real>)
    ensures |jds| == |names| && forall k :: 0 <= k < |names| ==> jds[k] == jdOf(names[k])
  {
    seq(|names|, k requires 0 <= k < |names| => jdOf(names[k]))
  }

  /** What `getlightcurve` computes from the timestamps and the reductions
      of the exposures in list order: the first failing reduction ends the
      run, otherwise the results are assembled. */
  function Curve(jds: seq<real>, reductions: seq<Result<Diff, Failure>>): Result<LightCurve, Failure>
    requires |jds| == |reductions|
  {
    CollectSpec(reductions);
    var diffs :- Collect(reductions);
    Assemble(jds, diffs)
  }

  /** The light curve of a run: the first failing exposure, in list order,
      ends it with its error; exposures with different numbers of stars end
      it as ragged; otherwise entry `j` of star `s`'s series is star `s` of
      the `j`-th exposure in timestamp order. */
  lemma CurveSpec(jds: seq<real>, reductions: seq<Result<Diff, Failure>>)
    requires |jds| == |reductions|
    ensures var c := Curve(jds, reductions);
            && ((exists k :: 0 <= k < |reductions| && reductions[k].Failure?) ==>
                  exists k :: 0 <= k < |reductions| && reductions[k].Failure? &&
                              c == Failure(reductions[k].error) &&
                              forall j :: 0 <= j < k ==> reductions[j].Success?)
            && ((forall k :: 0 <= k < |reductions| ==> reductions[k].Success?) ==>
                  && Collect(reductions).Success?
                  && var diffs := Collect(reductions).value;
                  && |diffs| == |reductions|
                  && (forall k :: 0 <= k < |reductions| ==> diffs[k] == reductions[k].value)
                  && c == Assemble(jds, diffs))
  {
    CollectSpec(reductions);
  }
}
