/** The record parser shared by both `read_mag` functions: the file produced
    by IRAF `phot` is reduced to its non-comment lines, and every fifth one
    (offset 4 of each block of 5) carries flux, magnitude and error as its
    5th-, 4th- and 3rd-to-last whitespace tokens. */
module MagFile {
  import opened Outcomes
  import opened Text
  import opened Photometry

  const Stride: nat := 5
  const DataOffset: nat := 4

  /** `[i.strip() for i in lines]`. */
  function Stripped(lines: seq<string>): (f: seq<string>)
    ensures |f| == |lines| && forall i :: 0 <= i < |lines| ==> f[i] == Strip(lines[i])
  {
    seq(|lines|, i requires 0 <= i < |lines| => Strip(lines[i]))
  }

  /** No line is blank once stripped, so `i[0]` never raises. */
  predicate NoBlankLine(lines: seq<string>) {
    forall i :: 0 <= i < |lines| ==> Strip(lines[i]) != []
  }

  /** The lines that survive `[i for i in f if i[0] != '#']`. Only defined
      when no line is empty, since `i[0]` raises on an empty one. */
  function Uncommented(f: seq<string>): (kept: seq<string>)
    requires forall i :: 0 <= i < |f| ==> f[i] != []
    ensures |kept| <= |f|
    ensures forall k :: 0 <= k < |kept| ==> kept[k] in f && kept[k][0] != '#'
  {
    if |f| == 0 then []
    else
      var rest := Uncommented(f[..|f| - 1]);
      var s := f[|f| - 1];
      if s[0] == '#' then rest else rest + [s]
  }

  /** The filter works line by line: the lines kept from `a + b` are those
      kept from `a` followed by those kept from `b`, and a single line is
      kept exactly when it does not start with `#`. So every non-comment
      line is kept, in its original order. */
  lemma {:induction false} UncommentedAppend(a: seq<string>, b: seq<string>)
    requires forall i :: 0 <= i < |a| ==> a[i] != []
    requires forall i :: 0 <= i < |b| ==> b[i] != []
    ensures forall i :: 0 <= i < |a + b| ==> (a + b)[i] != []
    ensures Uncommented(a + b) == Uncommented(a) + Uncommented(b)
    ensures |b| == 1 ==> Uncommented(b) == if b[0][0] == '#' then [] else b
    decreases |b|
  {
    assert forall i :: 0 <= i < |a + b| ==> (a + b)[i] != [] by {
      forall i | 0 <= i < |a + b|
        ensures (a + b)[i] != []
      {
        if i >= |a| {
          assert (a + b)[i] == b[i - |a|];
        }
      }
    }
    if |b| == 0 {
      assert a + b == a;
    } else {
      var init := b[..|b| - 1];
      assert (a + b)[..|a + b| - 1] == a + init;
      UncommentedAppend(a, init);
      if |b| == 1 {
        assert init == [];
      }
    }
  }

  /** Without comment lines nothing is dropped. */
  lemma {:induction false} UncommentedAll(f: seq<string>)
    requires forall i :: 0 <= i < |f| ==> f[i] != [] && f[i][0] != '#'
    ensures Uncommented(f) == f
  {
    if |f| > 0 {
      UncommentedAll(f[..|f| - 1]);
      assert f[..|f| - 1] + [f[|f| - 1]] == f;
    }
  }

  /** A comment line is dropped: fewer lines are kept than read. */
  lemma {:induction false} UncommentedDrops(f: seq<string>, j: nat)
    requires forall i :: 0 <= i < |f| ==> f[i] != []
    requires j < |f| && f[j][0] == '#'
    ensures |Uncommented(f)| < |f|
  {
    if j < |f| - 1 {
      UncommentedDrops(f[..|f| - 1], j);
    }
  }

  /** Every kept line starts with a word. */
  lemma KeptLinesStart(lines: seq<string>)
    requires forall i :: 0 <= i < |lines| ==> Strip(lines[i]) != []
    ensures var kept := Uncommented(Stripped(lines));
            forall k :: 0 <= k < |kept| ==> kept[k] != [] && TrimLeft(kept[k]) == kept[k]
  {
    var f := Stripped(lines);
    var kept := Uncommented(f);
    forall k | 0 <= k < |kept|
      ensures kept[k] != [] && TrimLeft(kept[k]) == kept[k]
    {
      var i :| 0 <= i < |f| && f[i] == kept[k];
      StripStart(lines[i]);
    }
  }

  /** Lines 37-39 of 17apermag_caha.py (168-170 of errmag.py): strip every
      line, drop comments, split the rest. None when a blank line makes the
      comment test raise. */
  function DataLines(lines: seq<string>): Option<seq<seq<string>>> {
    var f := Stripped(lines);
    if exists i :: 0 <= i < |f| && f[i] == [] then None
    else
      var kept := Uncommented(f);
      Some(seq(|kept|, k requires 0 <= k < |kept| => Split(kept[k])))
  }

  datatype Fields = Fields(flux: real, mag: real, err: real)

  /** Why a record line is refused: too few tokens for a negative index
      (IndexError) or a token float() does not accept (ValueError). */
  datatype LineFault = Short | NotNumber

  /** The three reads of the loop body, in the source's order: the error
      (token -3), then the magnitude (-4), then the flux (-5). */
  function LineFields(toks: seq<string>, parse: string -> Option<real>): Result<Fields, LineFault> {
    var n := |toks|;
    if n < 3 then Failure(Short)
    else if parse(toks[n - 3]).None? then Failure(NotNumber)
    else if n < 4 then Failure(Short)
    else if parse(toks[n - 4]).None? then Failure(NotNumber)
    else if n < 5 then Failure(Short)
    else if parse(toks[n - 5]).None? then Failure(NotNumber)
    else Success(Fields(parse(toks[n - 5]).value, parse(toks[n - 4]).value, parse(toks[n - 3]).value))
  }

  /** A record line is accepted exactly when it has at least five tokens and
      float() accepts the three at offsets -5, -4 and -3. */
  lemma LineFieldsAccepts(toks: seq<string>, parse: string -> Option<real>)
    ensures var n := |toks|;
            LineFields(toks, parse).Success? <==>
              n >= 5 && parse(toks[n - 5]).Some? && parse(toks[n - 4]).Some? && parse(toks[n - 3]).Some?
  {
  }

  /** The lines `range(4, len(f), 5)` visits: one per complete block. */
  function RecordLines(f: seq<seq<string>>): (r: seq<seq<string>>)
    ensures |r| == |f| / Stride
  {
    seq(|f| / Stride, k requires 0 <= k < |f| / Stride => f[Stride * k + DataOffset])
  }

  function RecordFields(f: seq<seq<string>>, parse: string -> Option<real>): (rs: seq<Result<Fields, LineFault>>)
    ensures |rs| == |f| / Stride
  {
    seq(|f| / Stride, k requires 0 <= k < |f| / Stride => LineFields(RecordLines(f)[k], parse))
  }

  /** The three lists `read_mag` returns, built from the parsed records. */
  function Project(recs: seq<Fields>): (m: Measurements)
    ensures m.Aligned() && |m.mag| == |recs|
  {
    Measurements(seq(|recs|, k requires 0 <= k < |recs| => recs[k].flux),
                 seq(|recs|, k requires 0 <= k < |recs| => recs[k].mag),
                 seq(|recs|, k requires 0 <= k < |recs| => recs[k].err))
  }

  /** The specification of the parse loop: each record line parsed in turn,
      the first refused line deciding the outcome. */
  function Columns(f: seq<seq<string>>, parse: string -> Option<real>): Result<Measurements, LineFault> {
    var recs :- Collect(RecordFields(f, parse));
    Success(Project(recs))
  }

  /** What the parse loop promises: with L non-comment lines there are L / 5
      records, record k comes from line 5k + 4 (a trailing partial block is
      ignored), flux, magnitude and error come from tokens -5, -4 and -3 and
      stay index-aligned; any refused line aborts the whole parse with the
      fault of the first such line. */
  lemma ColumnsSpec(f: seq<seq<string>>, parse: string -> Option<real>)
    ensures Columns(f, parse).Success? <==>
              forall k :: 0 <= k < |f| / 5 ==> LineFields(f[5 * k + 4], parse).Success?
    ensures Columns(f, parse).Success? ==>
              var m := Columns(f, parse).value;
              && m.Aligned() && |m.mag| == |f| / 5
              && forall k :: 0 <= k < |f| / 5 ==>
                   var toks := f[5 * k + 4];
                   var n := |toks|;
                   && n >= 5
                   && m.flux[k] == parse(toks[n - 5]).value
                   && m.mag[k] == parse(toks[n - 4]).value
                   && m.err[k] == parse(toks[n - 3]).value
    ensures Columns(f, parse).Failure? ==>
              exists k :: 0 <= k < |f| / 5 && LineFields(f[5 * k + 4], parse).Failure? &&
                          Columns(f, parse).error == LineFields(f[5 * k + 4], parse).error &&
                          forall j :: 0 <= j < k ==> LineFields(f[5 * j + 4], parse).Success?
  {
    var rs := RecordFields(f, parse);
    CollectSpec(rs);
    var c := Collect(rs);
    assert Columns(f, parse).Success? <==> c.Success?;
    forall k | 0 <= k < |f| / 5
      ensures rs[k] == LineFields(f[5 * k + 4], parse)
    {
    }
    if c.Success? {
      forall k | 0 <= k < |f| / 5
        ensures LineFields(f[5 * k + 4], parse).Success?
      {
        assert rs[k].Success?;
      }
      assert Columns(f, parse).value == Project(c.value);
      forall k | 0 <= k < |f| / 5
        ensures |f[5 * k + 4]| >= 5
      {
        assert rs[k].Success?;
        LineFieldsAccepts(f[5 * k + 4], parse);
      }
    } else {
      assert Columns(f, parse).error == c.error;
      var i :| 0 <= i < |rs| && rs[i].Failure? && c.error == rs[i].error &&
               forall j :: 0 <= j < i ==> rs[j].Success?;
      forall j | 0 <= j < i
        ensures LineFields(f[5 * j + 4], parse).Success?
      {
        assert rs[j].Success?;
      }
      assert LineFields(f[5 * i + 4], parse).Failure?;
    }
  }

  /** The parse loop (lines 40-45 of 17apermag_caha.py, 171-177 of
      errmag.py): three lists grown one record line at a time. */
  method ReadBlocks(f: seq<seq<string>>, parse: string -> Option<real>)
    returns (r: Result<Measurements, LineFault>)
    ensures r == Columns(f, parse)
  {
    ghost var rs := RecordFields(f, parse);
    var fluxes: seq<real> := [];
    var mags: seq<real> := [];
    var errs: seq<real> := [];
    var i := DataOffset;
    while i < |f|
      invariant i % Stride == DataOffset && |errs| == i / Stride <= |rs|
      invariant |fluxes| == |mags| == |errs|
      invariant Collect(rs[..|errs|]).Success?
      invariant var recs: seq<Fields> := Collect(rs[..|errs|]).value;
                && |recs| == |errs|
                && (forall k :: 0 <= k < |errs| ==>
                      fluxes[k] == recs[k].flux && mags[k] == recs[k].mag && errs[k] == recs[k].err)
      decreases |f| - i
    {
      var k := |errs|;
      assert rs[k] == LineFields(f[i], parse);
      assert rs[..k + 1][..k] == rs[..k];
      var line := LineFields(f[i], parse);
      if line.Failure? {
        CollectPrefixFailure(rs, k + 1);
        return Failure(line.error);
      }
      errs := errs + [line.value.err];
      mags := mags + [line.value.mag];
      fluxes := fluxes + [line.value.flux];
      i := i + Stride;
    }
    assert rs[..|errs|] == rs;
    assert Measurements(fluxes, mags, errs) == Project(Collect(rs).value);
    r := Success(Measurements(fluxes, mags, errs));
  }
}
