/** Python 2 `str` operations the scripts apply to the lines they read:
    `strip()`, `split()` with no argument, and `replace(old, new)`. */
module Text {

  /** The characters `str.isspace()` accepts: space, tab, newline, vertical
      tab, form feed and carriage return. */
  predicate IsSpace(c: char) {
    c == ' ' || c == '\t' || c == '\n' || c == '\U{B}' || c == '\U{C}' || c == '\r'
  }

  predicate NoSpace(s: string) {
    forall i :: 0 <= i < |s| ==> !IsSpace(s[i])
  }

  function TrimLeft(s: string): (r: string)
    ensures |r| <= |s| && r == s[|s| - |r|..]
    ensures r == [] || !IsSpace(r[0])
    ensures forall i :: 0 <= i < |s| - |r| ==> IsSpace(s[i])
  {
    if s == [] || !IsSpace(s[0]) then s else TrimLeft(s[1..])
  }

  function TrimRight(s: string): (r: string)
    ensures |r| <= |s| && r == s[..|r|]
    ensures r == [] || !IsSpace(r[|r| - 1])
    ensures forall i :: |r| <= i < |s| ==> IsSpace(s[i])
  {
    if s == [] || !IsSpace(s[|s| - 1]) then s else TrimRight(s[..|s| - 1])
  }

  /** `s.strip()`. */
  function Strip(s: string): string {
    TrimRight(TrimLeft(s))
  }

  /** Length of the run of non-space characters that starts `s`. */
  function WordLength(s: string): (n: nat)
    ensures n <= |s| && NoSpace(s[..n])
    ensures n < |s| ==> IsSpace(s[n])
  {
    if s == [] || IsSpace(s[0]) then 0 else 1 + WordLength(s[1..])
  }

  /** `s.split()`: the maximal runs of non-space characters, in order. */
  function Split(s: string): (toks: seq<string>)
    ensures Tokens(toks)
    decreases |s|
  {
    var r := TrimLeft(s);
    if r == [] then []
    else
      var n := WordLength(r);
      assert n > 0;
      var rest := Split(r[n..]);
      TokensCons(r[..n], rest);
      [r[..n]] + rest
  }

  /** Every token is a non-empty run of non-space characters. */
  predicate Tokens(toks: seq<string>) {
    forall k :: 0 <= k < |toks| ==> toks[k] != [] && NoSpace(toks[k])
  }

  lemma TokensCons(w: string, rest: seq<string>)
    requires w != [] && NoSpace(w) && Tokens(rest)
    ensures Tokens([w] + rest)
  {
    var toks := [w] + rest;
    forall k | 0 <= k < |toks|
      ensures toks[k] != [] && NoSpace(toks[k])
    {
      if k > 0 {
        assert toks[k] == rest[k - 1];
      }
    }
  }

  /** A line splits into no token exactly when it strips to the empty string. */
  lemma SplitEmptyIffBlank(s: string)
    ensures Split(s) == [] <==> Strip(s) == []
  {
    var r := TrimLeft(s);
    if r != [] {
      assert !IsSpace(r[0]);
    }
  }

  /** `s.split()[0]` on a line that is not blank. */
  function FirstWord(s: string): (w: string)
    requires TrimLeft(s) != []
    ensures w != [] && NoSpace(w)
  {
    Split(s)[0]
  }

  /** A line that strips to something is not blank for `split`. */
  lemma NotBlank(s: string)
    requires Strip(s) != []
    ensures TrimLeft(s) != []
  {
  }

  /** A stripped line that is not empty starts with a non-space. */
  lemma StripStart(s: string)
    requires Strip(s) != []
    ensures !IsSpace(Strip(s)[0]) && TrimLeft(Strip(s)) == Strip(s)
  {
    var r := TrimLeft(s);
    assert Strip(s)[0] == r[0];
  }

  /** `strip()` leaves a word without spaces as it is. */
  lemma StripWord(w: string)
    requires NoSpace(w)
    ensures Strip(w) == w
  {
    if w != [] {
      assert !IsSpace(w[|w| - 1]);
    }
  }

  /** Cutting a string anywhere after its first word keeps that word. */
  lemma {:induction false} WordLengthPrefix(r: string, m: nat)
    requires WordLength(r) <= m <= |r|
    ensures WordLength(r[..m]) == WordLength(r)
  {
    if r != [] && !IsSpace(r[0]) {
      assert r[..m][1..] == r[1..][..m - 1];
      WordLengthPrefix(r[1..], m - 1);
    }
  }

  /** A word ends at the latest where only spaces follow. */
  lemma {:induction false} WordWithin(r: string, m: nat)
    requires m <= |r| && forall i :: m <= i < |r| ==> IsSpace(r[i])
    ensures WordLength(r) <= m
  {
    if r != [] && !IsSpace(r[0]) {
      WordWithin(r[1..], m - 1);
    }
  }

  /** The first word is the leading run of non-space characters once the
      leading spaces are gone. */
  lemma FirstWordIs(s: string)
    requires TrimLeft(s) != []
    ensures FirstWord(s) == TrimLeft(s)[..WordLength(TrimLeft(s))]
  {
  }

  /** Stripping a line first does not change its first word. */
  lemma FirstWordOfStrip(s: string)
    requires Strip(s) != []
    ensures TrimLeft(Strip(s)) != [] && FirstWord(Strip(s)) == FirstWord(s)
  {
    var r := TrimLeft(s);
    var t := TrimRight(r);
    assert Strip(s) == t;
    assert TrimLeft(t) == t by {
      assert t != [] && t[0] == r[0] && !IsSpace(t[0]);
    }
    var n := WordLength(r);
    assert WordLength(t) == n by {
      WordWithin(r, |t|);
      WordLengthPrefix(r, |t|);
    }
    FirstWordIs(s);
    FirstWordIs(t);
    PrefixOfPrefix(r, |t|, n);
  }

  lemma PrefixOfPrefix(r: string, m: nat, n: nat)
    requires n <= m <= |r|
    ensures r[..m][..n] == r[..n]
  {
  }

  /** Leading white space is skipped up to the first non-space character. */
  lemma {:induction false} TrimLeftSpaces(pre: string, t: string)
    requires forall i :: 0 <= i < |pre| ==> IsSpace(pre[i])
    requires t == [] || !IsSpace(t[0])
    ensures TrimLeft(pre + t) == t
  {
    if pre != [] {
      assert (pre + t)[1..] == pre[1..] + t;
      TrimLeftSpaces(pre[1..], t);
    }
  }

  /** A word followed by white space or the end is one whole run. */
  lemma {:induction false} WordLengthOf(w: string, post: string)
    requires NoSpace(w)
    requires post == [] || IsSpace(post[0])
    ensures WordLength(w + post) == |w|
  {
    if w != [] {
      assert (w + post)[1..] == w[1..] + post;
      WordLengthOf(w[1..], post);
    }
  }

  /** A string of white space alone splits into no token. */
  lemma SplitBlank(s: string)
    requires forall i :: 0 <= i < |s| ==> IsSpace(s[i])
    ensures Split(s) == []
  {
    TrimLeftSpaces(s, []);
    assert s + [] == s;
  }

  /** After leading white space, a maximal run of non-space characters is the
      first token, and the tokens after it are those of the rest of the line.
      With `SplitBlank` this determines `split()` on every string. */
  lemma SplitWord(pre: string, w: string, post: string)
    requires forall i :: 0 <= i < |pre| ==> IsSpace(pre[i])
    requires w != [] && NoSpace(w)
    requires post == [] || IsSpace(post[0])
    ensures Split(pre + w + post) == [w] + Split(post)
  {
    var r := w + post;
    assert pre + w + post == pre + r;
    TrimLeftSpaces(pre, r);
    WordLengthOf(w, post);
    SplitUnfold(pre + r, r, |w|);
    assert r[..|w|] == w && r[|w|..] == post;
  }

  /** One step of `split()`: the first token and the tokens after it. */
  lemma SplitUnfold(x: string, r: string, n: nat)
    requires TrimLeft(x) == r && r != [] && WordLength(r) == n
    ensures Split(x) == [r[..n]] + Split(r[n..])
  {
  }

  /** `s.replace(pat, rep)`: every non-overlapping occurrence of `pat`, scanned
      from the left, is replaced by `rep`. */
  function Replace(s: string, pat: string, rep: string): string
    requires pat != []
    decreases |s|
  {
    if |s| < |pat| then s
    else if s[..|pat|] == pat then rep + Replace(s[|pat|..], pat, rep)
    else [s[0]] + Replace(s[1..], pat, rep)
  }

  /** `pat` occurs in `s` starting at index `i`. */
  predicate OccursAt(s: string, pat: string, i: nat) {
    i + |pat| <= |s| && s[i..i + |pat|] == pat
  }

  /** A string in which `pat` never occurs is returned unchanged. */
  lemma {:induction false} ReplaceAbsent(s: string, pat: string, rep: string)
    requires pat != []
    requires forall i: nat :: !OccursAt(s, pat, i)
    ensures Replace(s, pat, rep) == s
    decreases |s|
  {
    if |s| >= |pat| {
      assert !OccursAt(s, pat, 0);
      assert s[..|pat|] == s[0..0 + |pat|];
      forall i: nat
        ensures !OccursAt(s[1..], pat, i)
      {
        assert !OccursAt(s, pat, i + 1);
        if i + |pat| <= |s[1..]| {
          assert s[1..][i..i + |pat|] == s[i + 1..i + 1 + |pat|];
        }
      }
      ReplaceAbsent(s[1..], pat, rep);
      assert [s[0]] + s[1..] == s;
    }
  }

  /** The file names the scripts derive: the extension of an exposure becomes
      that of its measurement file, and back. */
  lemma ReplaceExtension()
    ensures Replace("n1.fits", ".fits", ".obs") == "n1.obs"
    ensures Replace("n1.obs", ".obs", ".fits") == "n1.fits"
  {
    FitsToObs();
    ObsToFits();
  }

  lemma FitsToObs()
    ensures Replace("n1.fits", ".fits", ".obs") == "n1.obs"
  {
    assert Replace(".fits", ".fits", ".obs") == ".obs" + Replace("", ".fits", ".obs");
    assert "1.fits"[..5] != ".fits" && "1.fits"[1..] == ".fits";
    assert "n1.fits"[..5] != ".fits" && "n1.fits"[1..] == "1.fits";
  }

  lemma ObsToFits()
    ensures Replace("n1.obs", ".obs", ".fits") == "n1.fits"
  {
    assert Replace(".obs", ".obs", ".fits") == ".fits" + Replace("", ".obs", ".fits");
    assert "1.obs"[..4] != ".obs" && "1.obs"[1..] == ".obs";
    assert "n1.obs"[..4] != ".obs" && "n1.obs"[1..] == "1.obs";
  }

}
