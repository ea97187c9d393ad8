/** The reduction of errmag.py: `read_mag`, which records the exposure in
    `../errfilelst` and exits on any refused record line, `diffmag` with the
    flux-weighted reference inlined, the `getlightcurve` loop, and the
    exposure list `objlst` of `main`. Where the two scripts share code they
    share the model; the lemmas at the end relate this script to
    17apermag_caha.py. */
module ErrMag {
  import opened Outcomes
  import opened Text
  import opened Photometry
  import opened MagFile
  import opened Reduce
  import opened LightCurve
  import Caha

  /** What `read_mag(file_obs)` returns, raises or exits with: the name the
      exit handlers append to `../errfilelst` is the `.fits` image's. */
  function Parsed(fs: Files, name: string, parse: string -> Option<real>): Result<Measurements, Failure> {
    if name !in fs then Failure(NoSuchFile(name))
    else
      match DataLines(fs[name])
      case None => Failure(BlankLine(name))
      case Some(f) =>
        match Columns(f, parse)
        case Failure(_) => Failure(Exit(Replace(name, ".obs", ".fits")))
        case Success(m) => Success(m)
  }

  /** Both scripts read a measurement file alike: the same columns when it
      parses, the same error for a missing file or a blank line; a refused
      record line, which 17apermag_caha.py reports as an IndexError or a
      logged ValueError, makes errmag.py exit naming the image. */
  lemma ParsedAgrees(fs: Files, name: string, parse: string -> Option<real>)
    ensures var r, c := Parsed(fs, name, parse), Caha.Parsed(fs, name, parse);
            && (r.Success? <==> c.Success?)
            && (r.Success? ==> r.value == c.value && r.value.Aligned())
            && (c.Failure? && c.error in {NoSuchFile(name), BlankLine(name)} ==> r == c)
            && (c.Failure? && c.error in {MissingField(name), BadNumber(name)} <==>
                  r == Failure(Exit(Replace(name, ".obs", ".fits"))))
  {
    Caha.ParsedSpec(fs, name, parse);
  }

  /** `read_mag` (lines 160-196). */
  method ReadMag(fs: Files, name: string, parse: string -> Option<real>)
    returns (r: Result<Measurements, Failure>)
    ensures r == Parsed(fs, name, parse)
  {
    if name !in fs {
      return Failure(NoSuchFile(name));
    }
    var lines := DataLines(fs[name]);
    if lines.None? {
      return Failure(BlankLine(name));
    }
    var cols := ReadBlocks(lines.value, parse);
    if cols.Failure? {
      return Failure(Exit(Replace(name, ".obs", ".fits")));
    }
    r := Success(cols.value);
  }

  /** `diffmag(fn)` (lines 138-157). */
  function DiffMag(fs: Files, name: string, p: Primitives): Result<Diff, Failure> {
    var m :- Parsed(fs, name, p.parse);
    ParsedAgrees(fs, name, p.parse);
    Differential(m, p)
  }

  /** Both `diffmag`s apply the same flux-weighted reduction; they can differ
      only through `read_mag`, and whenever the read of 17apermag_caha.py
      succeeds so does this one, with the same values. */
  lemma DiffMagAgrees(fs: Files, name: string, p: Primitives)
    ensures Caha.Parsed(fs, name, p.parse).Success? ==> DiffMag(fs, name, p) == Caha.DiffMag(fs, name, p)
    ensures Parsed(fs, name, p.parse).Failure? ==> DiffMag(fs, name, p) == Failure(Parsed(fs, name, p.parse).error)
  {
    var r, c := Parsed(fs, name, p.parse), Caha.Parsed(fs, name, p.parse);
    ParsedAgrees(fs, name, p.parse);
    if c.Success? {
      assert r == c;
      assert DiffMag(fs, name, p) == Differential(r.value, p);
      assert Caha.DiffMag(fs, name, p) == Differential(c.value, p);
    }
  }

  /** The measurement file of an exposure (line 109). */
  function Reduction(fs: Files, name: string, p: Primitives): Result<Diff, Failure> {
    DiffMag(fs, Replace(name, ".fits", ".obs"), p)
  }

  function Reductions(fs: Files, names: seq<string>, p: Primitives): (rs: seq<Result<Diff, Failure>>)
    ensures |rs| == |names| && forall k :: 0 <= k < |names| ==> rs[k] == Reduction(fs, names[k], p)
  {
    seq(|names|, k requires 0 <= k < |names| => Reduction(fs, names[k], p))
  }

  /** `getlightcurve` (lines 100-120): each exposure reduced in list order,
      the first failure ending the run, then sorted by timestamp and
      transposed. */
  method GetLightCurve(fs: Files, names: seq<string>, jdOf: string -> real, p: Primitives)
    returns (r: Result<LightCurve, Failure>)
    ensures r == Curve(Stamps(names, jdOf), Reductions(fs, names, p))
  {
    var jds := Stamps(names, jdOf);
    ghost var rs := Reductions(fs, names, p);
    var diffs: seq<Diff> := [];
    var k := 0;
    while k < |names|
      invariant k <= |names| && Collect(rs[..k]) == Success(diffs)
    {
      var m := ReadMag(fs, Replace(names[k], ".fits", ".obs"), p.parse);
      assert rs[..k + 1][..k] == rs[..k];
      if m.Failure? {
        CollectPrefixFailure(rs, k + 1);
        return Failure(m.error);
      }
      ParsedAgrees(fs, Replace(names[k], ".fits", ".obs"), p.parse);
      var d := Differential(m.value, p);
      if d.Failure? {
        CollectPrefixFailure(rs, k + 1);
        return Failure(d.error);
      }
      diffs := diffs + [d.value];
      k := k + 1;
    }
    assert rs[..k] == rs;
    CollectSpec(rs);
    r := Assemble(jds, diffs);
  }

  /** The exposure list `main` reads. */
  const ListName: string := "objlst"

  /** Lines 247-248 of `main`: the first word of every line of `objlst`;
      a blank line raises. Comment lines are not skipped. */
  function NameList(fs: Files): Result<seq<string>, Failure> {
    if ListName !in fs then Failure(NoSuchFile(ListName))
    else if !NoBlankLine(fs[ListName]) then Failure(BlankLine(ListName))
    else Success(FirstWords(fs[ListName]))
  }

  /** The first word of every line, one name per line. */
  function FirstWords(lines: seq<string>): (names: seq<string>)
    requires NoBlankLine(lines)
    ensures |names| == |lines|
  {
    seq(|lines|, i requires 0 <= i < |lines| => Strip(FirstWord(lines[i])))
  }

  /** Each name is the first word of its line, so it is not empty and
      holds no space. */
  lemma FirstWordsSpec(lines: seq<string>)
    requires NoBlankLine(lines)
    ensures forall i :: 0 <= i < |lines| ==>
              && TrimLeft(lines[i]) != [] && FirstWords(lines)[i] == FirstWord(lines[i])
              && FirstWords(lines)[i] != [] && NoSpace(FirstWords(lines)[i])
  {
    forall i | 0 <= i < |lines|
      ensures TrimLeft(lines[i]) != [] && FirstWords(lines)[i] == FirstWord(lines[i])
    {
      NotBlank(lines[i]);
      StripWord(FirstWord(lines[i]));
    }
  }

  /** The list file must exist and hold no blank line; its names are then
      those `FirstWords` describes. */
  lemma NameListSpec(fs: Files)
    ensures var r := NameList(fs);
            && (r == Failure(NoSuchFile(ListName)) <==> ListName !in fs)
            && (ListName in fs ==>
                  (r == Failure(BlankLine(ListName)) <==>
                     exists i :: 0 <= i < |fs[ListName]| && Strip(fs[ListName][i]) == []))
            && (r.Success? <==> ListName in fs && NoBlankLine(fs[ListName]))
            && (ListName in fs && NoBlankLine(fs[ListName]) ==> r == Success(FirstWords(fs[ListName])))
  {
  }

  /** Without comment lines the two scripts read the same exposure list. */
  lemma NameListsAgree(fs: Files)
    requires ListName in fs
    requires forall i :: 0 <= i < |fs[ListName]| ==>
               Strip(fs[ListName][i]) != [] && Strip(fs[ListName][i])[0] != '#'
    ensures NameList(fs) == Caha.NameList(fs, ListName)
  {
    var lines := fs[ListName];
    var f := Stripped(lines);
    UncommentedAll(f);
    NameListSpec(fs);
    Caha.NameListSpec(fs, ListName);
    FirstWordsSpec(lines);
    Caha.KeptNamesSpec(lines);
    var r, c := NameList(fs), Caha.NameList(fs, ListName);
    var kept := Uncommented(f);
    assert kept == f;
    assert |r.value| == |c.value| == |lines|;
    forall i | 0 <= i < |lines|
      ensures r.value[i] == c.value[i]
    {
      FirstWordOfStrip(lines[i]);
      assert c.value[i] == FirstWord(kept[i]);
      assert kept[i] == Strip(lines[i]);
      assert r.value[i] == FirstWord(lines[i]);
    }
    assert r.value == c.value;
  }

  /** A comment line is an exposure name for errmag.py and is skipped by
      17apermag_caha.py, whose list is then shorter. */
  lemma NameListsDiffer(fs: Files, j: nat)
    requires ListName in fs && j < |fs[ListName]|
    requires NoBlankLine(fs[ListName])
    requires Strip(fs[ListName][j])[0] == '#'
    ensures NameList(fs).Success? && Caha.NameList(fs, ListName).Success?
    ensures |Caha.NameList(fs, ListName).value| < |NameList(fs).value|
  {
    var lines := fs[ListName];
    NameListSpec(fs);
    Caha.NameListSpec(fs, ListName);
    assert |Caha.KeptNames(lines)| < |lines| by {
      Caha.KeptNamesSpec(lines);
      UncommentedDrops(Stripped(lines), j);
    }
  }

}
