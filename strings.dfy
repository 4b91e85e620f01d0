/** The few pieces of Python's text handling the scripts rely on: `str.split()` and
    `str.strip()` without arguments, `readlines()` on already newline-translated text,
    `str.endswith` and substring search. */
module Strings {

  /** The characters for which Python's `str.isspace()` holds; `split()` and `strip()`
      without arguments separate on and remove exactly these. */
  const Whitespace: set<char> := {
      '\U{9}', '\U{A}', '\U{B}', '\U{C}', '\U{D}', '\U{1C}', '\U{1D}', '\U{1E}',
      '\U{1F}', '\U{20}', '\U{85}', '\U{A0}', '\U{1680}', '\U{2000}', '\U{2001}', '\U{2002}',
      '\U{2003}', '\U{2004}', '\U{2005}', '\U{2006}', '\U{2007}', '\U{2008}', '\U{2009}', '\U{200A}',
      '\U{2028}', '\U{2029}', '\U{202F}', '\U{205F}', '\U{3000}'
    }

  predicate IsSpace(c: char) {
    c in Whitespace
  }

  predicate AllSpace(s: string) {
    forall i | 0 <= i < |s| :: IsSpace(s[i])
  }

  /** A token `split()` can produce: non-empty and free of whitespace. */
  predicate IsWord(w: string) {
    |w| > 0 && forall i | 0 <= i < |w| :: !IsSpace(w[i])
  }

  /** Length of the whitespace-free prefix of `s`. */
  function WordLength(s: string): (n: nat)
    ensures n <= |s|
    ensures forall i | 0 <= i < n :: !IsSpace(s[i])
    ensures n < |s| ==> IsSpace(s[n])
  {
    if s == [] || IsSpace(s[0]) then 0 else 1 + WordLength(s[1..])
  }

  /** `s.split()`: the maximal whitespace-free runs of `s`, in order. */
  function Split(s: string): (words: seq<string>)
    ensures forall i | 0 <= i < |words| :: IsWord(words[i])
    decreases |s|
  {
    if s == [] then []
    else if IsSpace(s[0]) then Split(s[1..])
    else
      var n := WordLength(s);
      [s[..n]] + Split(s[n..])
  }

  /** Length of the whitespace prefix of `s`. */
  function LeadingSpace(s: string): (n: nat)
    ensures n <= |s|
    ensures forall i | 0 <= i < n :: IsSpace(s[i])
    ensures n < |s| ==> !IsSpace(s[n])
  {
    if s == [] || !IsSpace(s[0]) then 0 else 1 + LeadingSpace(s[1..])
  }

  /** Where the whitespace suffix of `s` begins. */
  function TrailingSpace(s: string): (n: nat)
    ensures n <= |s|
    ensures forall i | n <= i < |s| :: IsSpace(s[i])
    ensures n > 0 ==> !IsSpace(s[n - 1])
  {
    if s == [] || !IsSpace(s[|s| - 1]) then |s| else TrailingSpace(s[..|s| - 1])
  }

  /** `s.lstrip()` */
  function TrimStart(s: string): string {
    s[LeadingSpace(s)..]
  }

  /** `s.rstrip()` */
  function TrimEnd(s: string): string {
    s[..TrailingSpace(s)]
  }

  /** `s.strip()` */
  function Strip(s: string): string {
    TrimEnd(TrimStart(s))
  }

  /** `strip()` removes whitespace from both ends and nothing else: the result neither
      starts nor ends with whitespace, and `s` is it with whitespace around it. */
  lemma StripSpec(s: string)
    ensures var t := Strip(s);
      && (t != [] ==> !IsSpace(t[0]) && !IsSpace(t[|t| - 1]))
      && exists i, j | 0 <= i <= j <= |s| :: t == s[i..j] && AllSpace(s[..i]) && AllSpace(s[j..])
    ensures Strip(s) == [] <==> AllSpace(s)
  {
    var i := LeadingSpace(s);
    var u := s[i..];
    var k := TrailingSpace(u);
    var j := i + k;
    assert Strip(s) == u[..k] == s[i..j];
    assert AllSpace(s[..i]);
    assert AllSpace(s[j..]) by {
      assert forall m | 0 <= m < |s| - j :: s[j..][m] == u[k + m];
    }
    if AllSpace(s) {
      assert i == |s|;
    }
    if Strip(s) == [] {
      assert k == 0;
      assert i == |s|;
    }
  }

  lemma {:induction false} WordLengthOfWord(w: string, rest: string)
    requires IsWord(w)
    requires rest == [] || IsSpace(rest[0])
    ensures WordLength(w + rest) == |w|
    decreases |w|
  {
    var s := w + rest;
    assert s[0] == w[0];
    if |w| > 1 {
      assert s[1..] == w[1..] + rest;
      WordLengthOfWord(w[1..], rest);
    } else {
      assert s[1..] == rest;
    }
  }

  /** Leading whitespace never produces a token. */
  lemma {:induction false} SplitSkipsSpace(w: string, b: string)
    requires AllSpace(w)
    ensures Split(w + b) == Split(b)
    decreases |w|
  {
    if w != [] {
      assert (w + b)[0] == w[0];
      assert (w + b)[1..] == w[1..] + b;
      SplitSkipsSpace(w[1..], b);
    } else {
      assert w + b == b;
    }
  }

  /** A whitespace-only string has no tokens, and only such a string has none. */
  lemma {:induction false} SplitEmptyIffAllSpace(s: string)
    ensures Split(s) == [] <==> AllSpace(s)
    decreases |s|
  {
    if s != [] && IsSpace(s[0]) {
      SplitEmptyIffAllSpace(s[1..]);
      if AllSpace(s[1..]) {
        assert AllSpace(s) by {
          forall i | 0 <= i < |s| ensures IsSpace(s[i]) {
            if i > 0 { assert s[i] == s[1..][i - 1]; }
          }
        }
      } else {
        var j :| 0 <= j < |s[1..]| && !IsSpace(s[1..][j]);
        assert !IsSpace(s[j + 1]);
      }
    }
  }

  /** A single word splits into itself. */
  lemma SplitWord(w: string)
    requires IsWord(w)
    ensures Split(w) == [w]
  {
    WordLengthOfWord(w, []);
    assert w + [] == w;
    assert w[|w|..] == [];
  }

  /** Slicing a concatenation inside its first part. */
  lemma SliceOfConcat(a: string, t: string, m: nat)
    requires m <= |a|
    ensures (a + t)[..m] == a[..m]
    ensures (a + t)[m..] == a[m..] + t
  {
  }

  lemma ConcatAssoc(a: string, b: string, c: string)
    ensures a + b + c == a + (b + c)
  {
  }

  lemma WordLengthBeforeSpace(a: string, t: string)
    requires t != [] && IsSpace(t[0])
    ensures WordLength(a + t) == WordLength(a)
  {
    var m := WordLength(a);
    var rest := a[m..] + t;
    SliceOfConcat(a, t, m);
    assert rest[0] == if m < |a| then a[m] else t[0];
    assert a + t == a[..m] + rest by {
      assert a == a[..m] + a[m..];
      ConcatAssoc(a[..m], a[m..], t);
    }
    if m > 0 {
      WordLengthOfWord(a[..m], rest);
    }
  }

  /** Text is cut completely at a whitespace character: the tokens before it and the
      tokens from it on. */
  lemma {:induction false} SplitAtSpace(a: string, t: string)
    requires t != [] && IsSpace(t[0])
    ensures Split(a + t) == Split(a) + Split(t)
    decreases |a|
  {
    if a == [] {
      assert a + t == t;
    } else if IsSpace(a[0]) {
      SplitAtSpace(a[1..], t);
      SplitAtSpaceAfterSpace(a, t);
    } else {
      SplitAtSpace(a[WordLength(a)..], t);
      SplitAtSpaceAfterWord(a, t);
    }
  }

  lemma SplitAtSpaceAfterSpace(a: string, t: string)
    requires a != [] && IsSpace(a[0])
    requires Split(a[1..] + t) == Split(a[1..]) + Split(t)
    ensures Split(a + t) == Split(a) + Split(t)
  {
    SliceOfConcat(a, t, 1);
    assert (a + t)[0] == a[0];
  }

  lemma SplitAtSpaceAfterWord(a: string, t: string)
    requires a != [] && !IsSpace(a[0]) && t != [] && IsSpace(t[0])
    requires Split(a[WordLength(a)..] + t) == Split(a[WordLength(a)..]) + Split(t)
    ensures Split(a + t) == Split(a) + Split(t)
  {
    var m := WordLength(a);
    WordLengthBeforeSpace(a, t);
    SliceOfConcat(a, t, m);
    SplitWordFirst(a + t);
    SplitWordFirst(a);
    ConcatAssocWords([a[..m]], Split(a[m..]), Split(t));
  }

  /** A text that starts with a word splits into that word and the tokens after it. */
  lemma SplitWordFirst(s: string)
    requires s != [] && !IsSpace(s[0])
    ensures Split(s) == [s[..WordLength(s)]] + Split(s[WordLength(s)..])
  {
  }

  lemma ConcatAssocWords(x: seq<string>, y: seq<string>, z: seq<string>)
    ensures x + (y + z) == x + y + z
  {
  }

  /** A run of whitespace separates completely: repeated separators never create
      empty or extra tokens. */
  lemma SplitSeparated(a: string, sep: string, b: string)
    requires |sep| > 0 && AllSpace(sep)
    ensures Split(a + sep + b) == Split(a) + Split(b)
  {
    ConcatAssoc(a, sep, b);
    SplitAtSpace(a, sep + b);
    assert (sep + b)[0] == sep[0];
    SplitSkipsSpace(sep, b);
  }

  lemma TrimStartThenSplit(s: string)
    ensures Split(TrimStart(s)) == Split(s)
  {
    var t := TrimStart(s);
    var pre := s[..LeadingSpace(s)];
    assert s == pre + t;
    assert AllSpace(pre) by {
      assert forall i | 0 <= i < |pre| :: pre[i] == s[i];
    }
    SplitSkipsSpace(pre, t);
  }

  lemma TrimEndThenSplit(t: string)
    ensures Split(TrimEnd(t)) == Split(t)
  {
    var r := TrimEnd(t);
    var post := t[TrailingSpace(t)..];
    assert AllSpace(post) by {
      assert forall i | 0 <= i < |post| :: post[i] == t[TrailingSpace(t) + i];
    }
    if post != [] {
      assert t == r + post + [];
      SplitSeparated(r, post, []);
      assert r + [] == r;
    } else {
      assert t == r;
    }
  }

  /** Stripping before splitting changes nothing. */
  lemma StripThenSplit(s: string)
    ensures Split(Strip(s)) == Split(s)
  {
    TrimStartThenSplit(s);
    TrimEndThenSplit(TrimStart(s));
  }

  /** Trailing whitespace adds no token. */
  lemma SplitTrailingSpace(a: string, w: string)
    requires AllSpace(w)
    ensures Split(a + w) == Split(a)
  {
    if w == [] {
      assert a + w == a;
    } else {
      SplitSeparated(a, w, []);
      assert a + w + [] == a + w;
    }
  }

  lemma SplitWordThen(a: string, sep: string, rest: string)
    requires IsWord(a) && |sep| > 0 && AllSpace(sep)
    ensures Split(a + sep + rest) == [a] + Split(rest)
  {
    SplitSeparated(a, sep, rest);
    SplitWord(a);
  }

  lemma RegroupNine(w0: string, a: string, s1: string, b: string, s2: string, c: string,
                    s3: string, d: string, w4: string)
    ensures w0 + a + s1 + b + s2 + c + s3 + d + w4 == w0 + (a + s1 + (b + s2 + (c + s3 + (d + w4))))
  {
  }

  /** Four words, whatever whitespace surrounds or separates them, split into exactly
      those four words. */
  lemma SplitFourWords(w0: string, a: string, s1: string, b: string, s2: string, c: string,
                       s3: string, d: string, w4: string)
    requires IsWord(a) && IsWord(b) && IsWord(c) && IsWord(d)
    requires AllSpace(w0) && AllSpace(w4)
    requires |s1| > 0 && AllSpace(s1) && |s2| > 0 && AllSpace(s2) && |s3| > 0 && AllSpace(s3)
    ensures Split(w0 + a + s1 + b + s2 + c + s3 + d + w4) == [a, b, c, d]
  {
    var t3 := d + w4;
    SplitTrailingSpace(d, w4);
    SplitWord(d);
    var t2 := c + s3 + t3;
    SplitWordThen(c, s3, t3);
    var t1 := b + s2 + t2;
    SplitWordThen(b, s2, t2);
    var t0 := a + s1 + t1;
    SplitWordThen(a, s1, t1);
    SplitSkipsSpace(w0, t0);
    RegroupNine(w0, a, s1, b, s2, c, s3, d, w4);
  }

  /** Words joined by single spaces. */
  function JoinWords(words: seq<string>): string {
    if |words| <= 1 then (if words == [] then [] else words[0])
    else words[0] + " " + JoinWords(words[1..])
  }

  /** Splitting undoes joining with a separator. */
  lemma {:induction false} SplitJoinWords(words: seq<string>)
    requires forall i | 0 <= i < |words| :: IsWord(words[i])
    ensures Split(JoinWords(words)) == words
  {
    if |words| == 1 {
      SplitWord(words[0]);
    } else if |words| > 1 {
      assert IsSpace(" "[0]);
      SplitSeparated(words[0], " ", JoinWords(words[1..]));
      SplitWord(words[0]);
      SplitJoinWords(words[1..]);
      assert words == [words[0]] + words[1..];
    }
  }

  // ----- readlines -----

  /** Length of the first line of `s`, its terminating newline included. */
  function LineLength(s: string): (n: nat)
    requires s != []
    ensures 0 < n <= |s|
    ensures forall i | 0 <= i < n - 1 :: s[i] != '\n'
    ensures n < |s| ==> s[n - 1] == '\n'
  {
    if s[0] == '\n' || |s| == 1 then 1 else 1 + LineLength(s[1..])
  }

  /** A line as `readlines()` yields it: non-empty, with a newline at most at its end. */
  predicate IsLine(l: string) {
    l != [] && forall i | 0 <= i < |l| - 1 :: l[i] != '\n'
  }

  predicate EndsWithNewline(l: string) {
    l != [] && l[|l| - 1] == '\n'
  }

  /** `readlines()` on newline-translated text: every line keeps its newline, and only
      the last may lack one. */
  function ReadLines(s: string): (lines: seq<string>)
    ensures forall i | 0 <= i < |lines| :: IsLine(lines[i])
    ensures forall i | 0 <= i < |lines| - 1 :: EndsWithNewline(lines[i])
    ensures |lines| == 0 <==> s == []
    decreases |s|
  {
    if s == [] then []
    else
      var n := LineLength(s);
      [s[..n]] + ReadLines(s[n..])
  }

  function Concat(parts: seq<string>): string {
    if parts == [] then [] else parts[0] + Concat(parts[1..])
  }

  lemma {:induction false} ConcatSnoc(parts: seq<string>, last: string)
    ensures Concat(parts + [last]) == Concat(parts) + last
  {
    if parts == [] {
      assert [] + [last] == [last];
      assert Concat([last]) == last + Concat([]);
    } else {
      assert (parts + [last])[1..] == parts[1..] + [last];
      ConcatSnoc(parts[1..], last);
    }
  }

  /** No text is lost or invented by `readlines()`. */
  lemma {:induction false} ReadLinesConcat(s: string)
    ensures Concat(ReadLines(s)) == s
    decreases |s|
  {
    if s != [] {
      var n := LineLength(s);
      ReadLinesConcat(s[n..]);
      assert ([s[..n]] + ReadLines(s[n..]))[1..] == ReadLines(s[n..]);
      assert s == s[..n] + s[n..];
    }
  }

  /** Text made of newline-terminated lines reads back as exactly those lines. */
  lemma {:induction false} ReadLinesOfLines(lines: seq<string>)
    requires forall i | 0 <= i < |lines| :: IsLine(lines[i]) && EndsWithNewline(lines[i])
    ensures ReadLines(Concat(lines)) == lines
  {
    if lines != [] {
      var l := lines[0];
      var s := Concat(lines);
      assert s == l + Concat(lines[1..]);
      assert LineLength(s) == |l| by {
        var n := LineLength(s);
        assert forall i | 0 <= i < |l| :: s[i] == l[i];
        assert s[|l| - 1] == '\n';
        assert n - 1 < |l| ==> s[n - 1] == l[n - 1];
      }
      assert s[..|l|] == l;
      assert s[|l|..] == Concat(lines[1..]);
      ReadLinesOfLines(lines[1..]);
      assert lines == [l] + lines[1..];
    }
  }

  /** Text is one line exactly when it is non-empty and has no newline before its end. */
  lemma SingleLine(s: string)
    ensures |ReadLines(s)| == 1 <==> IsLine(s)
    ensures IsLine(s) ==> ReadLines(s) == [s]
  {
    if s != [] {
      var n := LineLength(s);
      if IsLine(s) {
        assert s[..n] == s;
        assert s[n..] == [];
      } else {
        var i :| 0 <= i < |s| - 1 && s[i] == '\n';
        assert n <= i + 1;
        assert s[n..] != [];
      }
    }
  }

  // ----- endswith and substring search -----

  predicate EndsWith(s: string, suffix: string) {
    |suffix| <= |s| && s[|s| - |suffix|..] == suffix
  }

  predicate OccursAt(s: string, sub: string, i: nat) {
    i + |sub| <= |s| && s[i..i + |sub|] == sub
  }

  /** `sub in s` */
  predicate Contains(s: string, sub: string) {
    exists i: nat | i <= |s| :: OccursAt(s, sub, i)
  }
}
