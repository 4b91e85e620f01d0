/** The two passes of `checkForBadFrames_fwhm.py` over the `range1_*.txt` files: the
    first collects every value for the histogram, the second skips the files already
    marked done, keeps the frames that have a value together with their paths, and
    selects the bad ones with a sigma-clipping mask.

    The files are given as values, in the order the directory listing yields them;
    the clipping mask comes from a function parameter standing for the statistics
    library. Both passes are specified over what the parser makes of each file. */
module BadFrames {
  import opened Results
  import opened Strings
  import opened Masking
  import opened FwhmRecords

  /** One `range1_*.txt` file: its path and its content. */
  datatype FwhmFile = FwhmFile(path: string, text: string)

  type Outcome = Result<Reading, ParseError>

  /** What `retrieveFWHMValues` makes of each file, in enumeration order. */
  function Outcomes(files: seq<FwhmFile>): (outs: seq<Outcome>)
    ensures |outs| == |files|
  {
    seq(|files|, i requires 0 <= i < |files| => RetrieveFwhmValue(files[i].path, files[i].text))
  }

  /** `fnmatch(path, '*done*.txt')`: the stars match anything, separators included, so
      the test is on the whole path. */
  predicate IsDoneFile(path: string) {
    EndsWith(path, ".txt") && Contains(path[..|path| - 4], "done")
  }

  /** `fnmatch`'s reading of `*done*.txt`: some text, then `done`, then some text, then
      `.txt`. */
  lemma DoneFileShape(path: string)
    requires IsDoneFile(path)
    ensures exists x: string, y: string :: path == x + "done" + y + ".txt"
  {
    var n := |path| - 4;
    var i: nat :| i <= n && OccursAt(path[..n], "done", i);
    var x, y := path[..i], path[i + 4..n];
    assert path == x + "done" + y + ".txt" by {
      assert path[..n][i..i + 4] == "done";
      assert path[n..] == ".txt";
      assert path == path[..i] + path[i..i + 4] + path[i + 4..n] + path[n..];
    }
  }

  /** Conversely, every path of that shape is a done file. */
  lemma ShapeIsDoneFile(x: string, y: string)
    ensures IsDoneFile(x + "done" + y + ".txt")
  {
    var p := x + "done" + y + ".txt";
    var n := |p| - 4;
    assert p[n..] == ".txt";
    assert p[..n] == x + "done" + y;
    assert p[..n][|x|..|x| + 4] == "done";
    assert OccursAt(p[..n], "done", |x|);
  }

  /** A directory whose name contains "done" marks every text file under it as done. */
  lemma DoneDirectory(dir: string, name: string)
    requires Contains(dir, "done") && EndsWith(name, ".txt")
    ensures IsDoneFile(dir + "/" + name)
  {
    var p := dir + "/" + name;
    var i: nat :| i <= |dir| && OccursAt(dir, "done", i);
    assert p[..|p| - 4][i..i + 4] == dir[i..i + 4];
    assert p[|p| - 4..] == name[|name| - 4..];
    assert OccursAt(p[..|p| - 4], "done", i);
  }

  /** What the second pass makes of each file: a done file is skipped unread, which
      leaves the same trace as a file whose frame is missing (no value, no error). */
  function SecondPassOutcomes(files: seq<FwhmFile>): (outs: seq<Outcome>)
    ensures |outs| == |files|
  {
    seq(|files|, i requires 0 <= i < |files| =>
      if IsDoneFile(files[i].path) then Ok(Missing) else RetrieveFwhmValue(files[i].path, files[i].text))
  }

  /** Every file was read without an exception. */
  predicate AllRead(outs: seq<Outcome>) {
    forall i | 0 <= i < |outs| :: outs[i].Ok?
  }

  /** `e` is the exception of the first file whose parse fails; the pass stops there. */
  predicate FirstError(outs: seq<Outcome>, e: ParseError) {
    exists k | 0 <= k < |outs| :: outs[k] == Err(e) && AllRead(outs[..k])
  }

  /** The file was read and its value is a number (`not math.isnan`). */
  predicate HasValue(o: Outcome) {
    o.Ok? && !IsNaN(o.value)
  }

  function TokenOf(o: Outcome): string {
    if HasValue(o) then o.value.token else ""
  }

  /** Each outcome's value, or "" where it has none (such entries are never selected). */
  function Tokens(outs: seq<Outcome>): (ts: seq<string>)
    ensures |ts| == |outs|
  {
    if outs == [] then [] else Tokens(outs[..|outs| - 1]) + [TokenOf(outs[|outs| - 1])]
  }

  /** The `not isnan` test of the first pass, one entry per file. */
  function ValueMask(outs: seq<Outcome>): (m: seq<bool>)
    ensures |m| == |outs|
  {
    if outs == [] then [] else ValueMask(outs[..|outs| - 1]) + [HasValue(outs[|outs| - 1])]
  }

  function Paths(files: seq<FwhmFile>): (ps: seq<string>)
    ensures |ps| == |files|
  {
    if files == [] then [] else Paths(files[..|files| - 1]) + [files[|files| - 1].path]
  }

  lemma {:induction false} TokensAt(outs: seq<Outcome>, i: nat)
    requires i < |outs|
    ensures Tokens(outs)[i] == TokenOf(outs[i])
    ensures ValueMask(outs)[i] == HasValue(outs[i])
  {
    if i < |outs| - 1 {
      TokensAt(outs[..|outs| - 1], i);
    }
  }

  lemma {:induction false} PathsAt(files: seq<FwhmFile>, i: nat)
    requires i < |files|
    ensures Paths(files)[i] == files[i].path
  {
    if i < |files| - 1 {
      PathsAt(files[..|files| - 1], i);
    }
  }

  /** The values a pass keeps, in file order. */
  function Values(outs: seq<Outcome>): seq<string> {
    Select(Tokens(outs), ValueMask(outs))
  }

  /** Exactly the values of the outcomes that have one are kept, each where its file
      stands among the files with a value. */
  lemma ValuesExact(outs: seq<Outcome>, t: string)
    ensures t in Values(outs) <==> exists k | 0 <= k < |outs| :: outs[k] == Ok(Value(t)) && !IsNanToken(t)
  {
    SelectMember(Tokens(outs), ValueMask(outs), t);
    if t in Values(outs) {
      var k :| 0 <= k < |outs| && ValueMask(outs)[k] && Tokens(outs)[k] == t;
      TokensAt(outs, k);
    }
    if exists k | 0 <= k < |outs| :: outs[k] == Ok(Value(t)) && !IsNanToken(t) {
      var k :| 0 <= k < |outs| && outs[k] == Ok(Value(t)) && !IsNanToken(t);
      TokensAt(outs, k);
    }
  }

  lemma ValuesInOrder(outs: seq<Outcome>, i: nat)
    requires i < |Values(outs)|
    ensures var k := Position(ValueMask(outs), i);
      k < |outs| && outs[k] == Ok(Value(Values(outs)[i])) && !IsNanToken(Values(outs)[i])
  {
    SelectAt(Tokens(outs), ValueMask(outs), i);
    TokensAt(outs, Position(ValueMask(outs), i));
  }

  /** One more file read by a pass. */
  lemma ValuesStep(outs: seq<Outcome>, k: nat)
    requires k < |outs|
    ensures Values(outs[..k + 1]) == Values(outs[..k]) + (if HasValue(outs[k]) then [TokenOf(outs[k])] else [])
  {
    assert outs[..k + 1][..k] == outs[..k];
    SelectSnoc(Tokens(outs[..k]), ValueMask(outs[..k]), TokenOf(outs[k]), HasValue(outs[k]));
  }

  lemma PathsStep(files: seq<FwhmFile>, outs: seq<Outcome>, k: nat)
    requires |outs| == |files| && k < |files|
    ensures Select(Paths(files[..k + 1]), ValueMask(outs[..k + 1]))
         == Select(Paths(files[..k]), ValueMask(outs[..k])) + (if HasValue(outs[k]) then [files[k].path] else [])
  {
    assert files[..k + 1][..k] == files[..k];
    assert outs[..k + 1][..k] == outs[..k];
    SelectSnoc(Paths(files[..k]), ValueMask(outs[..k]), files[k].path, HasValue(outs[k]));
  }

  lemma ReadStep(outs: seq<Outcome>, k: nat)
    requires k < |outs| && AllRead(outs[..k]) && outs[k].Ok?
    ensures AllRead(outs[..k + 1])
  {
    assert forall i | 0 <= i < k :: outs[..k + 1][i] == outs[..k][i];
  }

  /** The first pass (the histogram's values): every file is parsed, the first bad one
      aborts, and the values are exactly those of the files that have one, in order. */
  method CollectFwhmValues(files: seq<FwhmFile>) returns (r: Result<seq<string>, ParseError>)
    ensures r.Ok? <==> AllRead(Outcomes(files))
    ensures r.Ok? ==> r.value == Values(Outcomes(files))
    ensures r.Err? ==> FirstError(Outcomes(files), r.error)
  {
    ghost var outs := Outcomes(files);
    var values: seq<string> := [];
    for k := 0 to |files|
      invariant AllRead(outs[..k])
      invariant values == Values(outs[..k])
    {
      var p := RetrieveFwhmValue(files[k].path, files[k].text);
      assert p == outs[k];
      if p.Err? {
        return Err(p.error);
      }
      ReadStep(outs, k);
      ValuesStep(outs, k);
      if !IsNaN(p.value) {
        values := values + [p.value.token];
      }
    }
    assert outs[..|files|] == outs;
    return Ok(values);
  }

  /** `allFiles` after the second pass. */
  function KeptPaths(files: seq<FwhmFile>): seq<string> {
    Select(Paths(files), ValueMask(SecondPassOutcomes(files)))
  }

  /** `allFWHM` after the second pass. */
  function KeptValues(files: seq<FwhmFile>): seq<string> {
    Values(SecondPassOutcomes(files))
  }

  /** The two lists of the second pass are index-aligned: entry `i` of both comes from
      the same file, one that is not done and has that value. */
  /** The two lists the second pass builds grow together. */
  lemma KeptListsSameLength(files: seq<FwhmFile>)
    ensures |KeptValues(files)| == |KeptPaths(files)|
  {
  }

  lemma KeptListsAligned(files: seq<FwhmFile>, i: nat)
    requires i < |KeptPaths(files)|
    ensures |KeptValues(files)| == |KeptPaths(files)|
    ensures var k := Position(ValueMask(SecondPassOutcomes(files)), i);
      && k < |files|
      && KeptPaths(files)[i] == files[k].path
      && !IsDoneFile(files[k].path)
      && RetrieveFwhmValue(files[k].path, files[k].text) == Ok(Value(KeptValues(files)[i]))
      && !IsNanToken(KeptValues(files)[i])
  {
    var outs := SecondPassOutcomes(files);
    SelectAt(Paths(files), ValueMask(outs), i);
    ValuesInOrder(outs, i);
    PathsAt(files, Position(ValueMask(outs), i));
  }

  /** Every file that is not done and has a value is kept, with its value. */
  lemma KeptFileListed(files: seq<FwhmFile>, k: nat)
    requires k < |files| && !IsDoneFile(files[k].path)
    requires RetrieveFwhmValue(files[k].path, files[k].text).Ok?
    requires !IsNaN(RetrieveFwhmValue(files[k].path, files[k].text).value)
    ensures files[k].path in KeptPaths(files)
    ensures RetrieveFwhmValue(files[k].path, files[k].text).value.token in KeptValues(files)
  {
    var outs := SecondPassOutcomes(files);
    assert outs[k] == RetrieveFwhmValue(files[k].path, files[k].text);
    TokensAt(outs, k);
    PathsAt(files, k);
    SelectMember(Paths(files), ValueMask(outs), files[k].path);
    ValuesExact(outs, outs[k].value.token);
  }

  /** `identifyBadFrames`: skip done files before parsing them, skip missing frames, abort
      on the first malformed file, then keep the paths the clipping mask flags. */
  method IdentifyBadFrames(files: seq<FwhmFile>, sigmaClip: seq<string> -> seq<bool>)
    returns (r: Result<seq<string>, ParseError>)
    requires forall v :: |sigmaClip(v)| == |v|
    ensures r.Ok? <==> AllRead(SecondPassOutcomes(files))
    ensures r.Err? ==> FirstError(SecondPassOutcomes(files), r.error)
    ensures r.Ok? ==> r.value == Select(KeptPaths(files), sigmaClip(KeptValues(files)))
  {
    ghost var outs := SecondPassOutcomes(files);
    var allFiles: seq<string> := [];
    var allFwhm: seq<string> := [];
    for k := 0 to |files|
      invariant AllRead(outs[..k])
      invariant allFiles == Select(Paths(files[..k]), ValueMask(outs[..k]))
      invariant allFwhm == Values(outs[..k])
    {
      var f := files[k];
      PathsStep(files, outs, k);
      ValuesStep(outs, k);
      if IsDoneFile(f.path) {
        assert outs[k] == Ok(Missing);
        ReadStep(outs, k);
        continue;
      }
      var p := RetrieveFwhmValue(f.path, f.text);
      assert p == outs[k];
      if p.Err? {
        return Err(p.error);
      }
      ReadStep(outs, k);
      if IsNaN(p.value) {
        assert !HasValue(outs[k]);
        continue;
      }
      assert HasValue(outs[k]) && TokenOf(outs[k]) == p.value.token;
      allFiles := allFiles + [f.path];
      allFwhm := allFwhm + [p.value.token];
    }
    assert files[..|files|] == files;
    assert outs[..|files|] == outs;
    var mask := sigmaClip(allFwhm);
    return Ok(Select(allFiles, mask));
  }

  /** Every bad file is the path of a file that is not done and has a value. */
  lemma BadFilesAreKept(files: seq<FwhmFile>, sigmaClip: seq<string> -> seq<bool>, b: string)
    requires forall v :: |sigmaClip(v)| == |v|
    requires b in Select(KeptPaths(files), sigmaClip(KeptValues(files)))
    ensures exists k | 0 <= k < |files| :: files[k].path == b && !IsDoneFile(b)
                                         && HasValue(RetrieveFwhmValue(b, files[k].text))
  {
    var outs := SecondPassOutcomes(files);
    assert |sigmaClip(KeptValues(files))| == |KeptValues(files)|;
    SelectMember(KeptPaths(files), sigmaClip(KeptValues(files)), b);
    SelectMember(Paths(files), ValueMask(outs), b);
    var k :| 0 <= k < |files| && ValueMask(outs)[k] && Paths(files)[k] == b;
    TokensAt(outs, k);
    PathsAt(files, k);
  }
}
