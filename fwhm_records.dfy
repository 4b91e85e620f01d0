/** `retrieveFWHMValues` of `checkForBadFrames_fwhm.py`: the strict one-line FWHM
    record parser. The file's content is given as a value. */
module FwhmRecords {
  import opened Results
  import opened Strings

  /** What a well-formed FWHM file yields: the first field, or the marker of a frame
      lost in reduction (the source's NaN). */
  datatype Reading = Value(token: string) | Missing

  /** The tokens `float` reads as NaN: "nan" in any case, optionally signed. */
  predicate IsNanToken(t: string) {
    var u := if |t| > 0 && (t[0] == '+' || t[0] == '-') then t[1..] else t;
    |u| == 3 && (u[0] == 'n' || u[0] == 'N') && (u[1] == 'a' || u[1] == 'A') && (u[2] == 'n' || u[2] == 'N')
  }

  /** `math.isnan` of what the parser returns. */
  predicate IsNaN(r: Reading) {
    r.Missing? || IsNanToken(r.token)
  }

  datatype ParseError =
    | LineCount(file: string, lines: nat)   // the file does not hold exactly one line
    | FieldCount(fields: nat)               // the line holds neither 0 nor 4 fields

  /** `retrieveFWHMValues` on a file named `file` whose content is `text`. */
  function RetrieveFwhmValue(file: string, text: string): (r: Result<Reading, ParseError>)
    ensures r.Err? && r.error.LineCount? <==> |ReadLines(text)| != 1
    ensures r.Err? && r.error.LineCount? ==> r.error == LineCount(file, |ReadLines(text)|)
    ensures |ReadLines(text)| == 1 ==>
      var fields := Split(ReadLines(text)[0]);
      && (|fields| == 4 ==> r == Ok(Value(fields[0])))
      && (|fields| == 0 ==> r == Ok(Missing))
      && (|fields| != 0 && |fields| != 4 ==> r == Err(FieldCount(|fields|)))
  {
    var lines := ReadLines(text);
    if |lines| != 1 then Err(LineCount(file, |lines|))
    else
      StripThenSplit(lines[0]);
      var fields := Split(Strip(lines[0]));
      if |fields| == 4 then Ok(Value(fields[0]))
      else if |fields| == 0 then Ok(Missing)
      else Err(FieldCount(|fields|))
  }

  /** A completely empty file holds zero lines and is rejected like a multi-line one. */
  lemma EmptyFileRejected(file: string)
    ensures RetrieveFwhmValue(file, "") == Err(LineCount(file, 0))
  {
  }

  /** A second line, even a blank one, makes the file invalid. */
  lemma {:induction false} SecondLineRejected(file: string, first: string, rest: string)
    requires IsLine(first + "\n") && rest != []
    ensures RetrieveFwhmValue(file, first + "\n" + rest).Err?
    ensures RetrieveFwhmValue(file, first + "\n" + rest).error.LineCount?
  {
    var s := first + "\n" + rest;
    var n := LineLength(s);
    assert s[|first|] == '\n';
    assert n <= |first| + 1;
    assert s[n..] != [];
  }

  /** Four whitespace-separated words on one line, whatever whitespace surrounds or
      separates them, yield the first word. */
  lemma FourFieldRecord(file: string, w0: string, a: string, s1: string, b: string,
                        s2: string, c: string, s3: string, d: string, w4: string)
    requires IsWord(a) && IsWord(b) && IsWord(c) && IsWord(d)
    requires AllSpace(w0) && AllSpace(w4)
    requires |s1| > 0 && AllSpace(s1) && |s2| > 0 && AllSpace(s2) && |s3| > 0 && AllSpace(s3)
    requires IsLine(w0 + a + s1 + b + s2 + c + s3 + d + w4)
    ensures RetrieveFwhmValue(file, w0 + a + s1 + b + s2 + c + s3 + d + w4) == Ok(Value(a))
  {
    var line := w0 + a + s1 + b + s2 + c + s3 + d + w4;
    SingleLine(line);
    SplitFourWords(w0, a, s1, b, s2, c, s3, d, w4);
  }

  /** One line of whitespace only (a bare newline included) marks the frame as missing. */
  lemma BlankRecord(file: string, w: string)
    requires AllSpace(w) && IsLine(w)
    ensures RetrieveFwhmValue(file, w) == Ok(Missing)
  {
    SingleLine(w);
    SplitEmptyIffAllSpace(w);
  }

  /** A line of `k` space-separated words: 4 words give the first, none give Missing,
      and every other count (1, 2, 3, 5, ...) is an error naming `k`. */
  lemma FieldCountRule(file: string, words: seq<string>)
    requires forall i | 0 <= i < |words| :: IsWord(words[i])
    ensures var r := RetrieveFwhmValue(file, JoinWords(words) + "\n");
      && (|words| == 4 ==> r == Ok(Value(words[0])))
      && (|words| == 0 ==> r == Ok(Missing))
      && (|words| != 0 && |words| != 4 ==> r == Err(FieldCount(|words|)))
  {
    var line := JoinWords(words);
    assert IsSpace('\n');
    NoNewlineInJoin(words);
    SingleLine(line + "\n");
    SplitJoinWords(words);
    assert IsSpace("\n"[0]);
    SplitTrailingSpace(line, "\n");
  }

  lemma {:induction false} NoNewlineInJoin(words: seq<string>)
    requires forall i | 0 <= i < |words| :: '\n' !in words[i]
    ensures '\n' !in JoinWords(words)
  {
    if |words| > 1 {
      NoNewlineInJoin(words[1..]);
    }
  }
}
