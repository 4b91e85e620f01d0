/** The report step of `checkForBadFrames_fwhm.py`: for every bad file, the frame
    identifier `entirecamera_<digits>` found in its name, written one per line. */
module FrameReport {
  import opened Results
  import opened Strings

  const Marker: string := "entirecamera_"

  /** The ASCII digits; see README for `\d` on other Unicode digits. */
  predicate IsDigit(c: char) {
    '0' <= c <= '9'
  }

  /** The pattern `entirecamera_\d+` can start at `i`. */
  predicate MatchesAt(s: string, i: nat) {
    i + |Marker| < |s| && s[i..i + |Marker|] == Marker && IsDigit(s[i + |Marker|])
  }

  /** End of the maximal run of digits starting at `j`. */
  function DigitRunEnd(s: string, j: nat): (k: nat)
    requires j <= |s|
    ensures j <= k <= |s|
    ensures forall i | j <= i < k :: IsDigit(s[i])
    ensures k < |s| ==> !IsDigit(s[k])
    decreases |s| - j
  {
    if j < |s| && IsDigit(s[j]) then DigitRunEnd(s, j + 1) else j
  }

  /** Leftmost position at or after `from` where the pattern matches. */
  function LeftmostMatch(s: string, from: nat): (r: Option<nat>)
    ensures r.Some? ==> from <= r.value && MatchesAt(s, r.value)
    ensures r.Some? ==> forall j | from <= j < r.value :: !MatchesAt(s, j)
    ensures r.None? ==> forall j | from <= j :: !MatchesAt(s, j)
    decreases |s| - from
  {
    if |s| <= from + |Marker| then None
    else if MatchesAt(s, from) then Some(from)
    else LeftmostMatch(s, from + 1)
  }

  /** A frame identifier: the marker followed by one or more digits. */
  predicate IsFrameId(id: string) {
    |id| > |Marker| && id[..|Marker|] == Marker
    && forall k | |Marker| <= k < |id| :: IsDigit(id[k])
  }

  /** `re.search(r"entirecamera_\d+", name).group()`, or None where the search finds
      nothing: the leftmost match, its digit run taken greedily. */
  function SearchFrameId(name: string): (r: Option<string>)
    ensures r.None? <==> forall j: nat :: !MatchesAt(name, j)
    ensures r.Some? ==> IsFrameId(r.value)
    ensures r.Some? ==> exists i: nat :: && MatchesAt(name, i)
                                        && (forall j | 0 <= j < i :: !MatchesAt(name, j))
                                        && r.value == name[i..DigitRunEnd(name, i + |Marker|)]
  {
    match LeftmostMatch(name, 0)
    case None => None
    case Some(i) =>
      var e := DigitRunEnd(name, i + |Marker|);
      var id := name[i..e];
      assert id[..|Marker|] == name[i..i + |Marker|];
      assert forall k | |Marker| <= k < |id| :: id[k] == name[i + k];
      Some(id)
  }

  /** The frame identifier is maximal: the character after it is not a digit. */
  lemma FrameIdMaximal(name: string, i: nat)
    requires MatchesAt(name, i)
    ensures var e := DigitRunEnd(name, i + |Marker|); e > i + |Marker| && (e < |name| ==> !IsDigit(name[e]))
  {
  }

  /** What the search finds in each name, in order. */
  function Searches(names: seq<string>): (found: seq<Option<string>>)
    ensures |found| == |names|
  {
    seq(|names|, i requires 0 <= i < |names| => SearchFrameId(names[i]))
  }

  predicate AllFound(found: seq<Option<string>>) {
    forall i | 0 <= i < |found| :: found[i].Some?
  }

  /** The lines written for the names searched so far: each identifier and a newline. */
  function WrittenLines(found: seq<Option<string>>): (ls: seq<string>)
    requires AllFound(found)
    ensures |ls| == |found|
  {
    if found == [] then []
    else
      assert AllFound(found[..|found| - 1]) by {
        assert forall i | 0 <= i < |found| - 1 :: found[..|found| - 1][i] == found[i];
      }
      WrittenLines(found[..|found| - 1]) + [found[|found| - 1].value + "\n"]
  }

  lemma {:induction false} WrittenLinesAt(found: seq<Option<string>>, i: nat)
    requires AllFound(found) && i < |found|
    ensures WrittenLines(found)[i] == found[i].value + "\n"
  {
    var n := |found| - 1;
    assert AllFound(found[..n]) by {
      assert forall j | 0 <= j < n :: found[..n][j] == found[j];
    }
    if i < n {
      WrittenLinesAt(found[..n], i);
    }
  }

  lemma FoundStep(found: seq<Option<string>>, k: nat)
    requires k < |found| && AllFound(found[..k]) && found[k].Some?
    ensures AllFound(found[..k + 1])
    ensures WrittenLines(found[..k + 1]) == WrittenLines(found[..k]) + [found[k].value + "\n"]
  {
    assert forall i | 0 <= i < k :: found[..k + 1][i] == found[..k][i];
    assert found[..k + 1][..k] == found[..k];
  }

  /** Writing the report: one identifier and a newline per bad file. On the first name
      without a match the source crashes (`None` has no `group`); what was written up to
      then stays in the file, which the `with` block closes. */
  method WriteReport(badFiles: seq<string>) returns (report: string, failedAt: Option<nat>)
    ensures failedAt.None? <==> AllFound(Searches(badFiles))
    ensures failedAt.None? ==> report == Concat(WrittenLines(Searches(badFiles)))
    ensures failedAt.Some? ==> var k := failedAt.value;
      && k < |badFiles| && SearchFrameId(badFiles[k]).None?
      && AllFound(Searches(badFiles)[..k])
      && report == Concat(WrittenLines(Searches(badFiles)[..k]))
  {
    ghost var found := Searches(badFiles);
    report := "";
    for k := 0 to |badFiles|
      invariant AllFound(found[..k])
      invariant report == Concat(WrittenLines(found[..k]))
    {
      var m := SearchFrameId(badFiles[k]);
      assert m == found[k];
      if m.None? {
        return report, Some(k);
      }
      FoundStep(found, k);
      ConcatSnoc(WrittenLines(found[..k]), m.value + "\n");
      report := report + (m.value + "\n");
    }
    assert found[..|badFiles|] == found;
    return report, None;
  }

  /** A complete report reads back as exactly one line per bad file, line `i` holding
      the identifier found in name `i`. */
  lemma {:induction false} ReportLines(names: seq<string>)
    requires AllFound(Searches(names))
    ensures ReadLines(Concat(WrittenLines(Searches(names)))) == WrittenLines(Searches(names))
    ensures forall i | 0 <= i < |names| ::
      WrittenLines(Searches(names))[i] == Searches(names)[i].value + "\n"
  {
    var found := Searches(names);
    var ls := WrittenLines(found);
    forall i | 0 <= i < |ls| ensures ls[i] == found[i].value + "\n" && IsLine(ls[i]) && EndsWithNewline(ls[i]) {
      WrittenLinesAt(found, i);
      IdHasNoNewline(found[i].value);
    }
    ReadLinesOfLines(ls);
  }

  lemma IdHasNoNewline(id: string)
    requires IsFrameId(id)
    ensures '\n' !in id
  {
    forall k | 0 <= k < |id| ensures id[k] != '\n' {
      if k < |Marker| {
        assert id[k] == id[..|Marker|][k];
      }
    }
  }
}
