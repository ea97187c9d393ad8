# Differential photometry reduction — a Dafny model

This project models the reduction core of two Python 2 photometry scripts,
`17apermag_caha.py` and `errmag.py`. Both turn the per-exposure magnitude
files that IRAF `phot` writes into nightly light curves of two target stars.
The pipeline has five stages, and the model has one module per stage plus
one per script:

- **Record parser** (`read_mag`, module `MagFile`, with the script-specific
  error handling in `Caha` and `ErrMag`). Lines are stripped, and `#` comment
  lines are dropped. Only the fifth line of every five-line block is read.
  Its 5th-, 4th- and 3rd-to-last tokens give the flux, the magnitude and the
  magnitude error of one star. `17apermag_caha.py` lets the `IndexError` or
  `ValueError` escape. `errmag.py` catches every exception raised while
  reading the three fields of a record line (errmag.py:174-192), logs the
  `.fits` name and exits. In both scripts a missing file or a blank line
  escapes as an `IOError` or `IndexError`.
- **Dispersion statistics** (`calmeanstd`, module `Stats`). These are the
  mean, the population standard deviation (or `err[0]` for a single sample),
  and the root-sum-square error divided by n. Each accumulator loop is a
  method proved against the specification function `Dispersion`.
- **Differential reduction** (`summagerr`, `diffmag`, `diffmag2`, modules
  `Ensemble`, `Reduce` and `Caha`).
  - A flux-weighted ensemble reference is built from every star but the last
    two. `errmag.py` inlines the same expression.
  - The reference is subtracted from every star, and the reference error is
    added in quadrature.
  - `diffmag2` replaces slot `len-2` with the value from a second file. It
    then references the plain mean of the comparison stars, computed by
    `calmeanstd`.
- **Light-curve assembly** (`getlightcurve`, module `LightCurve`). Exposures
  are sorted by timestamp (an argsort). The exposure × star matrices are then
  transposed into per-star series.
- **Nightly binning** (`combine_days`, module `NightBin`). A loop with an
  open bin closes the bin at every gap of at least 0.3 day. Each bin's mean
  timestamp, mean magnitude and combined error are emitted. The model
  specifies the loop by the segments it emits, and proves the loop correct
  against them. A final exposure that starts a new night is never emitted,
  and this is modelled as written.
- **Target selection in `main`** (module `Targets`). This covers the name
  list read from the list file, and the binning of the last two stars.

Non-rational arithmetic comes from Python and its math library: `float()`,
`10**(-0.4*m)`, `-2.5*log10(F)` and `x**0.5`. These are parameters bundled
in `Photometry.Primitives`. Contracts that need the square root assume only
`Stats.IsSqrt` (a non-negative value whose square is the argument). Those
contracts are stated on squared quantities. The file system is a map from a
path to its lines. `get_jd` is a function parameter `jdOf`. Failures are
values of `Photometry.Failure`, and each one names the Python exception or
exit it stands for.

`calmeanstd`, `combine_days` and the `read_mag` block loop are the same in
both scripts (`errmag.py` lines 218-233, 199-215 and 171-177). One member
models each, and the table below cites the lines in `17apermag_caha.py`.

Behaviours of the scripts worth knowing:
- **Equal comparison stars.** With n equal stars of magnitude M and error
  E, the flux-weighted reference is `magOf(n·fluxOf(M))`, and its squared
  error is E²/n (`Ensemble.EqualStars`).
- **Comment lines in `errmag.py`.** `errmag.py` does not skip `#` lines in
  its object list, unlike `17apermag_caha.py` (`ErrMag.NameListsDiffer`).
- **No double emission.** `combine_days` never puts an exposure in two bins.
  The reset at the end of the loop body only reopens a bin at a break or at
  the last index (`NightBin.SegmentsOrdered`, `NightBin.Coverage`).
- **One-sample `calmeanstd`.** For e ≥ 0, `calmeanstd([m], [e])` returns
  (m, e, e): sigma falls back to `err[0]`, and the root of the sum of squares
  divided by n = 1 is e again (`Stats.SingleSample`).
- **One-exposure nights.** A one-exposure night has error² = 2e², because
  sigma falls back to `err[0]` and is added to `err_mean` in quadrature
  (`NightBin.BinError`).
- **Bare `except` in `errmag.py`.** The bare `except:` in `errmag.py`
  (lines 187-192) also turns a line with too few fields into the logged
  exit, not only a bad number (`ErrMag.ParsedAgrees`).

## Model

| member | source | states |
|---|---|---|
| MagFile.UncommentedAppend | 17apermag_caha.py:38 | the comment filter works line by line: filtering a + b gives the filtered a followed by the filtered b, and one line is kept iff it does not start with `#`. So every non-comment line is kept, in order |
| MagFile.UncommentedAll | 17apermag_caha.py:38 | with no `#` line, the comment filter keeps every line, in order |
| MagFile.UncommentedDrops | 17apermag_caha.py:38 | a `#` line among the stripped lines makes the kept list strictly shorter |
| MagFile.KeptLinesStart | 17apermag_caha.py:37-38 | every kept line is non-empty and starts with a non-space |
| MagFile.LineFieldsAccepts | 17apermag_caha.py:43-45 | a line yields a record iff it has at least 5 tokens and its tokens -5, -4 and -3 all parse |
| MagFile.ColumnsSpec | 17apermag_caha.py:39-45 | the result succeeds iff every line 5k+4 yields a record. It then holds exactly L/5 aligned records, where record k is tokens -5/-4/-3 of line 5k+4, and a trailing partial block is ignored. Otherwise it carries the error of the first failing line |
| MagFile.ReadBlocks | 17apermag_caha.py:40-45 | the append loop over lines 4, 9, 14, … returns exactly the `Columns` result (loop invariants) |
| Caha.ParsedSpec | 17apermag_caha.py:30-65 | a missing file gives `NoSuchFile`. A blank line gives `BlankLine` iff such a line exists. Success holds iff every selected line parses, with aligned lists of L/5 entries. A failure is always one of the four read errors |
| Caha.ReadMag | 17apermag_caha.py:30-65 | the whole `read_mag` equals `Parsed`, whose outcomes are characterised by `ParsedSpec` |
| ErrMag.ParsedAgrees | errmag.py:160-197 | succeeds exactly when the other script's reader does, with the same aligned values. Open and blank-line failures are identical. A missing field or a bad number becomes `Exit` with the `.obs` name's `.fits` form, and `Exit` arises from nothing else |
| ErrMag.ReadMag | errmag.py:160-197 | the whole `read_mag` of this script equals its `Parsed` |
| Stats.MeanStd | 17apermag_caha.py:68-83 | the two accumulator loops return exactly `Dispersion(mag, err)` (mean, sigma, err_mean) |
| Stats.DispersionSquares | 17apermag_caha.py:68-83 | for n > 1, sigma ≥ 0 and sigma² is the population variance Σ(mᵢ−mean)²/n. For n = 1, sigma = err[0]. err_mean ≥ 0 and err_mean²·n² = Σ errᵢ² |
| Stats.SingleSample | 17apermag_caha.py:71-82 | one sample (m, e ≥ 0) gives mean m, sigma e and err_mean e |
| Stats.ShiftInvariance | 17apermag_caha.py:69-75 | adding c to every magnitude adds c to the mean and leaves the variance unchanged |
| Ensemble.DefinedIffNonEmpty | 17apermag_caha.py:86-98 | with positive fluxes, the reference exists (log10 of a positive total) iff there is at least one comparison star |
| Ensemble.SingleStar | 17apermag_caha.py:86-98 | a single comparison star is its own reference: magnitude m, error e |
| Ensemble.WeightsSumToOne | 17apermag_caha.py:88-89 | the flux weights fluxOf(mᵢ)/Σflux add up to 1 |
| Ensemble.EqualStars | 17apermag_caha.py:86-98 | n equal stars (M, E) give magnitude magOf(n·fluxOf(M)) and an error whose square is E²/n |
| Ensemble.OrderIndependent | 17apermag_caha.py:86-98 | the reference and its error depend only on the multiset of comparison stars |
| Ensemble.ErrorBounded | 17apermag_caha.py:89 | if every comparison error is at most \|B\| in size, so is the reference error |
| Reduce.SubtractSpec | 17apermag_caha.py:110-111 | every differential magnitude plus the reference gives back the instrumental one, so differences between stars are preserved. Every error ≥ 0 with err² = errᵢ² + referr² |
| Reduce.DifferentialSpec | 17apermag_caha.py:101-113 | `diffmag` succeeds iff the reference over all stars but the last two exists. Its output has the input's length, with mag[i] = mag[i] − ref for every star, targets included, and err[i]² = err[i]² + referr² |
| Reduce.DifferentialDefined | 17apermag_caha.py:106-109 | with positive fluxes, `diffmag` succeeds iff the exposure has at least three stars |
| Reduce.TargetLocality | errmag.py:145-156 | changing the last two stars' values changes only their own outputs, and success does not change |
| ErrMag.DiffMagAgrees | errmag.py:138-157 | the inlined expressions of lines 147-156 are the same flux-weighted reduction as `summagerr`, so both scripts share `Reduce.Differential`. What differs is `read_mag`: whenever the other script's read succeeds, this script's read succeeds with the same values, so the two `diffmag` results are equal. On a read failure this script's `diffmag` returns that failure |
| Caha.SubstitutedSpec | 17apermag_caha.py:127-135 | fails with `SlotIndex` iff either file has fewer than 2 stars, and with `ZeroDivision` iff the primary has exactly 2. On success, slot n−2 comes from the second file and every other slot from the primary. The reference is the plain mean of the primary's comparison stars, independent of the second file. The errors add the quadrature mean error |
| Caha.DiffMag2Spec | 17apermag_caha.py:116-136 | with no second file the result is `diffmag(fn1)`. Otherwise a read failure of fn1, then of fn2, propagates, and two successful reads give the substituted reduction |
| Caha.DiffMag2 | 17apermag_caha.py:116-136 | the method (reads, slot overwrite, `calmeanstd`) returns exactly `DiffMag2Of` |
| Caha.Substitute | 17apermag_caha.py:130-135 | overwriting slot −2 in place and reducing returns exactly `Substituted` |
| LightCurve.Insert | 17apermag_caha.py:146 | inserting an index into a key-sorted index list keeps it sorted and adds exactly that index to its multiset |
| LightCurve.ArgSort | 17apermag_caha.py:146 | the argsort is a permutation of 0..n−1 that orders the keys ascending |
| LightCurve.SelectPermutation | 17apermag_caha.py:147 | selecting by two index lists with the same multiset gives results with the same multiset |
| LightCurve.Transpose | 17apermag_caha.py:159-160 | the transpose of a rectangular exposure × star matrix has t[s][j] = m[j][s] |
| LightCurve.AssembleSpec | 17apermag_caha.py:145-160 | assembly succeeds iff every exposure has the same star count. The timestamps are then the input permuted into ascending order, and mag[s][j] and err[s][j] are star s in the j-th exposure of that order |
| LightCurve.CurveSpec | 17apermag_caha.py:145-160 | the first failing exposure, in input order, aborts with its error. Otherwise the light curve is the assembly of all reductions |
| Caha.GetLightCurve | 17apermag_caha.py:139-165 | the loop (`.fits` → `.obs`, the optional `.obs2` file, `diffmag2`) followed by the sort returns exactly `Curve` of the timestamps and the per-exposure reductions |
| ErrMag.GetLightCurve | errmag.py:100-120 | the loop over `diffmag` followed by the sort returns exactly `Curve` of the timestamps and the per-exposure reductions |
| NightBin.NextBreak | 17apermag_caha.py:172-176 | the next index after lo whose gap to its predecessor is ≥ 0.3 (or the length), with no break in between |
| NightBin.CombineDays | 17apermag_caha.py:168-184 | the open-bin loop returns exactly the timestamps, magnitudes and errors of one bin per segment of `Segments(jd, 0)` |
| NightBin.SegmentsShape | 17apermag_caha.py:171-183 | the segments start at lo and chain end to start. Every later segment starts at a break, and no break lies inside a segment. The last one ends at the length, or one short of it when the last gap is a break. The list is empty only for a lone final break |
| NightBin.SegmentsOrdered | 17apermag_caha.py:171-183 | no input gives no bins, and bins are in order and disjoint, so no exposure is in two bins |
| NightBin.Coverage | 17apermag_caha.py:176-183 | exposure i is in some bin iff it is not the last exposure starting a new night |
| NightBin.BinCount | 17apermag_caha.py:176-183 | the number of bins is the number of gaps ≥ 0.3, plus one unless the last gap is ≥ 0.3 |
| NightBin.BinError | 17apermag_caha.py:177-179 | a bin's error ≥ 0 with error² = sigma² + err_mean². A one-exposure bin keeps its timestamp and magnitude, and has error² = 2·err² |
| NightBin.TimestampsOnly | 17apermag_caha.py:177-180 | the emitted timestamps do not depend on the magnitude or error series |
| NightBin.Examples | 17apermag_caha.py:171-183 | the timestamps 0.0, 0.1, 0.5, 0.6 give two nights. The timestamps 0.0, 0.1, 0.5 give one night, and the last exposure is dropped |
| Caha.KeptNamesSpec | 17apermag_caha.py:260-261 | each kept name is the first whitespace token of a stripped non-comment line: non-empty, with no space, not starting with `#` |
| Caha.NameListSpec | 17apermag_caha.py:260-261 | a missing list file gives `NoSuchFile`, and a blank line gives `BlankLine` iff one exists. Otherwise the result is the kept first tokens |
| ErrMag.FirstWordsSpec | errmag.py:248 | name i is the first whitespace token of line i: non-empty and with no space |
| ErrMag.NameListSpec | errmag.py:247-248 | `objlst` missing gives `NoSuchFile`, and a blank line gives `BlankLine` iff one exists. Otherwise the result is the first token of every line |
| ErrMag.NameListsAgree | errmag.py:247-248 | with no blank and no `#` line, both scripts read the same names |
| ErrMag.NameListsDiffer | errmag.py:247-248 | one `#` line makes the `errmag.py` list strictly longer than the filtered one |
| Text.SplitBlank | 17apermag_caha.py:39 | a string of white space alone splits into no token |
| Text.SplitWord | 17apermag_caha.py:39 | after leading white space, a maximal run of non-space characters is the first token, followed by the tokens of the rest. With `SplitBlank` this fixes `split()` on every string |
| Text.ReplaceAbsent | 17apermag_caha.py:150 | `replace` leaves a string in which the pattern never occurs unchanged |
| Text.ReplaceExtension | 17apermag_caha.py:150 | `n1.fits` becomes `n1.obs`, and `n1.obs` becomes `n1.fits` (errmag.py line 183) |
| Text.SplitEmptyIffBlank | 17apermag_caha.py:39 | `split()` gives no tokens iff the stripped line is empty |
| Text.FirstWordOfStrip | 17apermag_caha.py:261 | the first token of the stripped line is the first token of the line itself |
| Targets.BinTarget | 17apermag_caha.py:270 | one loop step returns `combine_days(jdlst, objlst[i], magerrlst[i])` |
| Targets.BinTargets | 17apermag_caha.py:263-272 | the loop returns the nights of every target, in order |
| Targets.LastTwo | 17apermag_caha.py:265-266 | `rows[-2:]` holds the last two rows, or all of them when there are fewer |
| Targets.TargetRows | 17apermag_caha.py:265-270 | target i is binned with magnitude row n−2+i and error row i. With at least four stars, row i is a comparison star's, not the target's |
| Targets.SharedTimestamps | 17apermag_caha.py:268-278 | every target gets the same night timestamps, one per night magnitude, so writing the last target's `cjdlst` is right for both |

## Left out

- `get_jd`, which reads FITS headers and calls IRAF `hedit`/`setjd`. It is the parameter `jdOf`.
- `plot`, `write_to_file` and the output file of `main`. These are figures and `%f` text formatting.
- The writes to `error.log` and `../errfilelst`, `datetime.now()`, `print`, and the exit status. A failure is a `Failure` value that carries the logged name.
- Floating-point rounding, NaN and infinity. Values are exact reals, and `float()`, `10**`, `log10` and `**0.5` are parameters.
- Ensemble.EqualStars, Ensemble.ErrorBounded: each property is stated for the abstract `fluxOf`/`magOf` under positivity alone. `magOf` is not assumed to invert `fluxOf`.
- LightCurve.ArgSort: it fixes one order among equal timestamps. numpy's unstable argsort may pick another, and the contract states only sortedness and permutation.
- The numpy object array built from exposures with different star counts. The model stops with `Ragged` instead.
- The `NameError` in `main` when the light curve has no target (`cjdlst` never assigned, 17apermag_caha.py:278, errmag.py:270).
- Caha.Substitute: the in-place overwrite of index −2 in the three lists is modelled as a sequence update on fresh values. No aliasing is observable, because the lists are local.
- The flux list that `read_mag` returns is kept in `Measurements`, and `Caha.Substitute` overwrites its slot −2 as `diffmag2` does. No result depends on it, so no contract speaks of it.
- The two flux expressions of `summagerr` (`10**((C-mag)/2.5)` with C = 0, and `10**(-0.4*mag)`) are one function `fluxOf`.
