/** The numerical core of `diagnosis_magVsDeltaMag.py`: reading the two magnitude
    columns of a catalogue, the scatter of the magnitude differences inside the
    calibration range, the accumulation of every catalogue's rows tagged with its
    frame number, and the choice of four frames for individual plots.

    Catalogue contents are given as the array `np.loadtxt` returns; the scatter is
    stated as a mean of squares, before the square root. */
module MagnitudeDiagnosis {
  import opened Results
  import opened Strings
  import opened Masking

  // ----- reading a catalogue -----

  /** What `np.loadtxt` returns: a single number (0-d); a 1-d array, either one line of
      several numbers or one column of numbers over several lines; or a table of
      `width` columns (2-d). */
  datatype NdArray = Scalar(x: real) | Vector(items: seq<real>) | Matrix(rows: seq<seq<real>>, width: nat)

  /** `np.loadtxt` only ever builds tables whose rows all have the same width. */
  predicate Rectangular(a: NdArray) {
    a.Matrix? ==> forall i | 0 <= i < |a.rows| :: |a.rows[i]| == a.width
  }

  datatype ColumnError =
    | TooManyIndices                          // `data[:, 0]` on a 0-d array
    | ColumnOutOfBounds(index: nat, size: nat)  // column `index` of a table `size` wide

  datatype Columns = Columns(mag1: seq<real>, mag2: seq<real>)

  /** Column `j` of a table. */
  function Column(rows: seq<seq<real>>, j: nat): (c: seq<real>)
    requires forall i | 0 <= i < |rows| :: j < |rows[i]|
    ensures |c| == |rows| && forall i | 0 <= i < |rows| :: c[i] == rows[i][j]
  {
    seq(|rows|, i requires 0 <= i < |rows| => rows[i][j])
  }

  /** `read_columns_from_file` on the parsed table: a 1-d array becomes one row
      (`reshape(1, -1)`), then columns 0 and 1 are taken. */
  function ReadColumns(a: NdArray): (r: Result<Columns, ColumnError>)
    requires Rectangular(a)
    ensures a.Scalar? ==> r == Err(TooManyIndices)
    ensures r.Ok? ==> |r.value.mag1| == |r.value.mag2|
  {
    match a
    case Scalar(_) => Err(TooManyIndices)
    case Vector(items) => TableColumns([items], |items|)
    case Matrix(rows, width) => TableColumns(rows, width)
  }

  function TableColumns(rows: seq<seq<real>>, width: nat): (r: Result<Columns, ColumnError>)
    requires forall i | 0 <= i < |rows| :: |rows[i]| == width
  {
    if width == 0 then Err(ColumnOutOfBounds(0, 0))
    else if width == 1 then Err(ColumnOutOfBounds(1, 1))
    else Ok(Columns(Column(rows, 0), Column(rows, 1)))
  }

  /** A table of at least two columns yields its first two columns, one entry per row;
      a narrower one fails on the first column it lacks. */
  lemma ColumnsOfTable(rows: seq<seq<real>>, width: nat)
    requires forall i | 0 <= i < |rows| :: |rows[i]| == width
    ensures var r := ReadColumns(Matrix(rows, width));
      && (width < 2 <==> r.Err?)
      && (width < 2 ==> r.error == ColumnOutOfBounds(width, width))
      && (r.Ok? ==> |r.value.mag1| == |rows| && |r.value.mag2| == |rows|)
      && (r.Ok? ==> forall i | 0 <= i < |rows| :: r.value.mag1[i] == rows[i][0] && r.value.mag2[i] == rows[i][1])
  {
  }

  /** A one-line catalogue is one row of columns, not a column vector: it reads exactly
      as the one-row table does. */
  lemma OneRowTable(items: seq<real>)
    ensures ReadColumns(Vector(items)) == ReadColumns(Matrix([items], |items|))
    ensures |items| >= 2 ==> ReadColumns(Vector(items)) == Ok(Columns([items[0]], [items[1]]))
  {
    if |items| >= 2 {
      assert Column([items], 0) == [items[0]];
      assert Column([items], 1) == [items[1]];
    }
  }

  /** A one-column catalogue of several lines also loads as a 1-d array, so it is read
      as a single row: its first two lines become one magnitude pair and the rest is
      dropped. */
  lemma OneColumnFileReadAsRow()
    ensures ReadColumns(Vector([10.0, 12.0, 15.0])) == Ok(Columns([10.0], [12.0]))
  {
    OneRowTable([10.0, 12.0, 15.0]);
  }

  // ----- squares and their mean -----

  function Sq(x: real): real {
    x * x
  }

  function Abs(x: real): (y: real)
    ensures y >= 0.0 && (y == x || y == -x)
  {
    if x < 0.0 then -x else x
  }

  /** `mag1 - mag2`, entry by entry. */
  function Diff(a: seq<real>, b: seq<real>): (d: seq<real>)
    requires |a| == |b|
    ensures |d| == |a| && forall i | 0 <= i < |a| :: d[i] == a[i] - b[i]
  {
    seq(|a|, i requires 0 <= i < |a| => a[i] - b[i])
  }

  /** `np.abs`, entry by entry. */
  function AbsAll(d: seq<real>): (e: seq<real>)
    ensures |e| == |d| && forall i | 0 <= i < |d| :: e[i] == Abs(d[i])
  {
    seq(|d|, i requires 0 <= i < |d| => Abs(d[i]))
  }

  function SumSquares(s: seq<real>): (t: real)
    ensures t >= 0.0
  {
    if s == [] then 0.0 else SumSquares(s[..|s| - 1]) + Sq(s[|s| - 1])
  }

  /** `np.mean(x**2)`; the mean of nothing (numpy's NaN) is None. */
  function MeanSquare(s: seq<real>): (m: Option<real>)
    ensures m.None? <==> s == []
    ensures m.Some? ==> m.value >= 0.0
  {
    if s == [] then None else Some(SumSquares(s) / (|s| as real))
  }

  /** Squaring forgets the sign. */
  lemma {:induction false} SumSquaresAbs(d: seq<real>)
    ensures SumSquares(AbsAll(d)) == SumSquares(d)
  {
    if d != [] {
      var n := |d| - 1;
      assert AbsAll(d)[..n] == AbsAll(d[..n]);
      SumSquaresAbs(d[..n]);
      assert Sq(Abs(d[n])) == Sq(d[n]);
    }
  }

  /** The total scatter is the same whether taken over the differences or their
      absolute values. */
  lemma MeanSquareAbs(d: seq<real>)
    ensures MeanSquare(AbsAll(d)) == MeanSquare(d)
  {
    SumSquaresAbs(d);
  }

  // ----- the calibration range -----

  /** Strictly inside the calibration range: both limits are excluded. */
  predicate InRange(m: real, faintLimit: real, brightLimit: real) {
    brightLimit < m < faintLimit
  }

  function InRangeMask(mag: seq<real>, faintLimit: real, brightLimit: real): (mask: seq<bool>)
    ensures |mask| == |mag|
  {
    if mag == [] then []
    else InRangeMask(mag[..|mag| - 1], faintLimit, brightLimit) + [InRange(mag[|mag| - 1], faintLimit, brightLimit)]
  }

  lemma {:induction false} InRangeMaskAt(mag: seq<real>, faintLimit: real, brightLimit: real, i: nat)
    requires i < |mag|
    ensures InRangeMask(mag, faintLimit, brightLimit)[i] == InRange(mag[i], faintLimit, brightLimit)
  {
    if i < |mag| - 1 {
      InRangeMaskAt(mag[..|mag| - 1], faintLimit, brightLimit, i);
    }
  }

  /** `diffMagInRange`: the differences whose magnitude lies in range, in order. */
  function DiffInRange(mag: seq<real>, magDiff: seq<real>, faintLimit: real, brightLimit: real): seq<real>
    requires |mag| <= |magDiff|
  {
    Select(magDiff[..|mag|], InRangeMask(mag, faintLimit, brightLimit))
  }

  /** `getMagnitudeDiffScatterInMagnitudeRange`, squared: the loop keeps `magDiff[i]`
      for every `i` whose magnitude is in range, then the mean of their squares. */
  method GetMagnitudeDiffScatterInMagnitudeRange(mag: seq<real>, magDiff: seq<real>, faintLimit: real, brightLimit: real)
    returns (meanSquare: Option<real>)
    requires |mag| <= |magDiff|
    ensures meanSquare == MeanSquare(DiffInRange(mag, magDiff, faintLimit, brightLimit))
  {
    var diffMagInRange: seq<real> := [];
    for i := 0 to |mag|
      invariant diffMagInRange == Select(magDiff[..i], InRangeMask(mag[..i], faintLimit, brightLimit))
    {
      assert mag[..i + 1][..i] == mag[..i];
      assert magDiff[..i + 1] == magDiff[..i] + [magDiff[i]];
      assert InRangeMask(mag[..i + 1], faintLimit, brightLimit)
        == InRangeMask(mag[..i], faintLimit, brightLimit) + [InRange(mag[i], faintLimit, brightLimit)];
      SelectSnoc(magDiff[..i], InRangeMask(mag[..i], faintLimit, brightLimit), magDiff[i], InRange(mag[i], faintLimit, brightLimit));
      if mag[i] > brightLimit && mag[i] < faintLimit {
        diffMagInRange := diffMagInRange + [magDiff[i]];
      }
    }
    assert mag[..|mag|] == mag;
    return MeanSquare(diffMagInRange);
  }

  /** Entry `j` of the filtered list is `magDiff[k]` for the `j`-th in-range `k`: the
      filter keeps order and only in-range entries. */
  lemma DiffInRangeAt(mag: seq<real>, magDiff: seq<real>, faintLimit: real, brightLimit: real, j: nat)
    requires |mag| <= |magDiff| && j < |DiffInRange(mag, magDiff, faintLimit, brightLimit)|
    ensures var k := Position(InRangeMask(mag, faintLimit, brightLimit), j);
      && k < |mag| && InRange(mag[k], faintLimit, brightLimit)
      && DiffInRange(mag, magDiff, faintLimit, brightLimit)[j] == magDiff[k]
  {
    var mask := InRangeMask(mag, faintLimit, brightLimit);
    SelectAt(magDiff[..|mag|], mask, j);
    InRangeMaskAt(mag, faintLimit, brightLimit, Position(mask, j));
  }

  /** Every in-range magnitude contributes its difference. */
  lemma InRangeKept(mag: seq<real>, magDiff: seq<real>, faintLimit: real, brightLimit: real, k: nat)
    requires |mag| <= |magDiff| && k < |mag| && InRange(mag[k], faintLimit, brightLimit)
    ensures magDiff[k] in DiffInRange(mag, magDiff, faintLimit, brightLimit)
    ensures |DiffInRange(mag, magDiff, faintLimit, brightLimit)| > 0
  {
    var mask := InRangeMask(mag, faintLimit, brightLimit);
    InRangeMaskAt(mag, faintLimit, brightLimit, k);
    SelectMember(magDiff[..|mag|], mask, magDiff[k]);
  }

  /** The filtered list is never longer than `mag`; with crossed limits it is empty and
      the scatter undefined. */
  lemma DiffInRangeBounds(mag: seq<real>, magDiff: seq<real>, faintLimit: real, brightLimit: real)
    requires |mag| <= |magDiff|
    ensures |DiffInRange(mag, magDiff, faintLimit, brightLimit)| <= |mag|
    ensures brightLimit >= faintLimit ==> DiffInRange(mag, magDiff, faintLimit, brightLimit) == []
    ensures brightLimit >= faintLimit ==> MeanSquare(DiffInRange(mag, magDiff, faintLimit, brightLimit)) == None
  {
    var mask := InRangeMask(mag, faintLimit, brightLimit);
    if brightLimit >= faintLimit {
      forall k | 0 <= k < |mask| ensures !mask[k] {
        InRangeMaskAt(mag, faintLimit, brightLimit, k);
      }
      SelectNone(magDiff[..|mag|], mask);
    }
  }

  // ----- accumulating every catalogue -----

  /** Both columns of every catalogue have the same length. */
  predicate Paired(cs: seq<Columns>) {
    forall i | 0 <= i < |cs| :: |cs[i].mag1| == |cs[i].mag2|
  }

  lemma PairedPrefix(cs: seq<Columns>, n: nat)
    requires Paired(cs) && n <= |cs|
    ensures Paired(cs[..n])
  {
    assert forall i | 0 <= i < n :: cs[..n][i] == cs[i];
  }

  /** The four parallel arrays of the accumulation loop. */
  datatype Aggregate = Aggregate(mag1Total: seq<real>, magDiff: seq<real>, magDiffAbs: seq<real>, frameNumber: seq<nat>)

  /** `np.repeat(index, n)` */
  function Repeat(k: nat, n: nat): (s: seq<nat>)
    ensures |s| == n && forall i | 0 <= i < n :: s[i] == k
  {
    seq(n, _ => k)
  }

  /** Rows read from the catalogues, all together. */
  function TotalRows(cs: seq<Columns>): nat {
    if cs == [] then 0 else TotalRows(cs[..|cs| - 1]) + |cs[|cs| - 1].mag1|
  }

  /** The arrays after the loop has appended every catalogue of `cs`, the catalogue at
      enumeration index `k` tagged with `k`. */
  function Aggregated(cs: seq<Columns>): (a: Aggregate)
    requires Paired(cs)
    ensures |a.mag1Total| == TotalRows(cs) && |a.magDiff| == TotalRows(cs)
    ensures |a.magDiffAbs| == TotalRows(cs) && |a.frameNumber| == TotalRows(cs)
  {
    if cs == [] then Aggregate([], [], [], [])
    else
      var n := |cs| - 1;
      PairedPrefix(cs, n);
      var a := Aggregated(cs[..n]);
      var d := Diff(cs[n].mag1, cs[n].mag2);
      Aggregate(a.mag1Total + cs[n].mag1, a.magDiff + d, a.magDiffAbs + AbsAll(d),
                a.frameNumber + Repeat(n, |cs[n].mag1|))
  }

  /** Row `j` of catalogue `k` sits at position `TotalRows(cs[..k]) + j` of every array:
      its first magnitude, its difference, the absolute difference and the tag `k`. */
  lemma {:induction false} AggregatedRow(cs: seq<Columns>, k: nat, j: nat)
    requires Paired(cs) && k < |cs| && j < |cs[k].mag1|
    ensures var a, p := Aggregated(cs), TotalRows(cs[..k]) + j;
      && p < TotalRows(cs)
      && a.mag1Total[p] == cs[k].mag1[j]
      && a.magDiff[p] == cs[k].mag1[j] - cs[k].mag2[j]
      && a.magDiffAbs[p] == Abs(cs[k].mag1[j] - cs[k].mag2[j])
      && a.frameNumber[p] == k
  {
    var n := |cs| - 1;
    PairedPrefix(cs, n);
    if k < n {
      assert cs[..n][..k] == cs[..k];
      AggregatedRow(cs[..n], k, j);
      AggregatedKeepsPrefix(cs, TotalRows(cs[..k]) + j);
    } else {
      assert cs[..k] == cs[..n];
    }
  }

  /** Appending a catalogue leaves the rows already there untouched. */
  lemma AggregatedKeepsPrefix(cs: seq<Columns>, p: nat)
    requires Paired(cs) && cs != [] && Paired(cs[..|cs| - 1]) && p < TotalRows(cs[..|cs| - 1])
    ensures var a, b := Aggregated(cs[..|cs| - 1]), Aggregated(cs);
      && b.mag1Total[p] == a.mag1Total[p] && b.magDiff[p] == a.magDiff[p]
      && b.magDiffAbs[p] == a.magDiffAbs[p] && b.frameNumber[p] == a.frameNumber[p]
  {
  }

  /** Every absolute difference is the absolute value of the difference beside it. */
  lemma {:induction false} AggregatedAbs(cs: seq<Columns>)
    requires Paired(cs)
    ensures Aggregated(cs).magDiffAbs == AbsAll(Aggregated(cs).magDiff)
  {
    if cs != [] {
      var n := |cs| - 1;
      PairedPrefix(cs, n);
      AggregatedAbs(cs[..n]);
      var a := Aggregated(cs[..n]);
      var d := Diff(cs[n].mag1, cs[n].mag2);
      assert AbsAll(a.magDiff + d) == AbsAll(a.magDiff) + AbsAll(d);
    }
  }

  /** Tags never exceed the last index and never decrease along the arrays. */
  lemma {:induction false} FrameNumberNonDecreasing(cs: seq<Columns>, i: nat, j: nat)
    requires Paired(cs) && i <= j < TotalRows(cs)
    ensures Aggregated(cs).frameNumber[i] <= Aggregated(cs).frameNumber[j] < |cs|
  {
    var n := |cs| - 1;
    PairedPrefix(cs, n);
    var prev := Aggregated(cs[..n]).frameNumber;
    var m := TotalRows(cs[..n]);
    if j < m {
      FrameNumberNonDecreasing(cs[..n], i, j);
    } else if i < m {
      FrameNumberNonDecreasing(cs[..n], i, i);
    }
  }

  /** The squared total RMS: over the absolute differences, as the source computes it,
      or over the differences themselves; either way non-negative. */
  lemma TotalScatter(cs: seq<Columns>)
    requires Paired(cs)
    ensures MeanSquare(Aggregated(cs).magDiffAbs) == MeanSquare(Aggregated(cs).magDiff)
    ensures MeanSquare(Aggregated(cs).magDiff).Some? <==> TotalRows(cs) > 0
  {
    AggregatedAbs(cs);
    MeanSquareAbs(Aggregated(cs).magDiff);
  }

  /** What `read_columns_from_file` makes of each catalogue, in enumeration order. */
  function ReadAll(tables: seq<NdArray>): (loaded: seq<Result<Columns, ColumnError>>)
    requires forall i | 0 <= i < |tables| :: Rectangular(tables[i])
    ensures |loaded| == |tables|
  {
    seq(|tables|, i requires 0 <= i < |tables| => ReadColumns(tables[i]))
  }

  predicate AllColumns(loaded: seq<Result<Columns, ColumnError>>) {
    forall i | 0 <= i < |loaded| :: loaded[i].Ok?
  }

  /** `e` is the error of the first catalogue that cannot be read; the loop stops there. */
  predicate FirstColumnError(loaded: seq<Result<Columns, ColumnError>>, e: ColumnError) {
    exists k | 0 <= k < |loaded| :: loaded[k] == Err(e) && AllColumns(loaded[..k])
  }

  function ColumnsOf(loaded: seq<Result<Columns, ColumnError>>): (cs: seq<Columns>)
    requires AllColumns(loaded)
    ensures |cs| == |loaded| && forall i | 0 <= i < |loaded| :: loaded[i] == Ok(cs[i])
  {
    seq(|loaded|, i requires 0 <= i < |loaded| && AllColumns(loaded) => loaded[i].value)
  }

  lemma AggregatedSnoc(cs: seq<Columns>, c: Columns)
    requires Paired(cs) && |c.mag1| == |c.mag2|
    ensures Paired(cs + [c])
    ensures var a, b := Aggregated(cs), Aggregated(cs + [c]);
      && b.mag1Total == a.mag1Total + c.mag1
      && b.magDiff == a.magDiff + Diff(c.mag1, c.mag2)
      && b.magDiffAbs == a.magDiffAbs + AbsAll(Diff(c.mag1, c.mag2))
      && b.frameNumber == a.frameNumber + Repeat(|cs|, |c.mag1|)
  {
    var longer := cs + [c];
    assert longer[..|cs|] == cs;
    assert longer[|cs|] == c;
    assert Paired(longer) by {
      assert forall i | 0 <= i < |cs| :: longer[i] == cs[i];
    }
  }

  /** The loop has read the first `|cs|` catalogues of `loaded`, as `cs`. */
  predicate ReadSoFar(loaded: seq<Result<Columns, ColumnError>>, cs: seq<Columns>) {
    |cs| <= |loaded| && Paired(cs) && forall i | 0 <= i < |cs| :: loaded[i] == Ok(cs[i])
  }

  /** One more catalogue read. */
  lemma ReadNext(loaded: seq<Result<Columns, ColumnError>>, cs: seq<Columns>, c: Columns)
    requires ReadSoFar(loaded, cs) && |cs| < |loaded| && loaded[|cs|] == Ok(c)
    requires |c.mag1| == |c.mag2|
    ensures ReadSoFar(loaded, cs + [c])
  {
    AggregatedSnoc(cs, c);
    assert forall i | 0 <= i < |cs| :: (cs + [c])[i] == cs[i];
  }

  /** A catalogue that cannot be read after the ones already read is the first error. */
  lemma ReadFails(loaded: seq<Result<Columns, ColumnError>>, cs: seq<Columns>, e: ColumnError)
    requires ReadSoFar(loaded, cs) && |cs| < |loaded| && loaded[|cs|] == Err(e)
    ensures FirstColumnError(loaded, e) && !AllColumns(loaded)
  {
    var k := |cs|;
    assert forall i | 0 <= i < k :: loaded[..k][i] == loaded[i];
    assert AllColumns(loaded[..k]);
  }

  /** Every catalogue read. */
  lemma ReadDone(loaded: seq<Result<Columns, ColumnError>>, cs: seq<Columns>)
    requires ReadSoFar(loaded, cs) && |cs| == |loaded|
    ensures AllColumns(loaded) && ColumnsOf(loaded) == cs && Paired(ColumnsOf(loaded))
  {
    assert AllColumns(loaded);
    var d := ColumnsOf(loaded);
    assert forall i | 0 <= i < |cs| :: d[i] == cs[i];
  }

  /** The accumulation loop over the catalogues: each one's rows are appended to the
      four arrays; the first catalogue that cannot be read aborts the script. */
  method Accumulate(tables: seq<NdArray>) returns (r: Result<Aggregate, ColumnError>)
    requires forall i | 0 <= i < |tables| :: Rectangular(tables[i])
    ensures r.Ok? <==> AllColumns(ReadAll(tables))
    ensures r.Ok? ==> Paired(ColumnsOf(ReadAll(tables)))
    ensures r.Ok? ==> r.value == Aggregated(ColumnsOf(ReadAll(tables)))
    ensures r.Err? ==> FirstColumnError(ReadAll(tables), r.error)
  {
    ghost var loaded := ReadAll(tables);
    ghost var cs: seq<Columns> := [];
    var mag1Total: seq<real> := [];
    var magDiff: seq<real> := [];
    var magDiffAbs: seq<real> := [];
    var frameNumber: seq<nat> := [];
    for index := 0 to |tables|
      invariant |cs| == index && ReadSoFar(loaded, cs)
      invariant Aggregate(mag1Total, magDiff, magDiffAbs, frameNumber) == Aggregated(cs)
    {
      var c := ReadColumns(tables[index]);
      assert c == loaded[index];
      if c.Err? {
        ReadFails(loaded, cs, c.error);
        return Err(c.error);
      }
      var mag1, mag2 := c.value.mag1, c.value.mag2;
      mag1Total := mag1Total + mag1;
      magDiff := magDiff + Diff(mag1, mag2);
      magDiffAbs := magDiffAbs + AbsAll(Diff(mag1, mag2));
      frameNumber := frameNumber + Repeat(index, |mag1|);
      ReadNext(loaded, cs, c.value);
      AggregatedSnoc(cs, c.value);
      cs := cs + [c.value];
    }
    ReadDone(loaded, cs);
    return Ok(Aggregate(mag1Total, magDiff, magDiffAbs, frameNumber));
  }

  /** The two numbers the all-frames plot shows, squared: the total RMS and the RMS
      inside the calibration range. */
  datatype Scatter = Scatter(total: Option<real>, inRange: Option<real>)

  /** Accumulate every catalogue, then take the total scatter and the scatter of the
      rows whose first magnitude is in range. */
  method ScatterOfAllFrames(tables: seq<NdArray>, faintLimit: real, brightLimit: real)
    returns (r: Result<Scatter, ColumnError>)
    requires forall i | 0 <= i < |tables| :: Rectangular(tables[i])
    ensures r.Ok? <==> AllColumns(ReadAll(tables))
    ensures r.Err? ==> FirstColumnError(ReadAll(tables), r.error)
    ensures r.Ok? ==> Paired(ColumnsOf(ReadAll(tables)))
    ensures r.Ok? ==> var a := Aggregated(ColumnsOf(ReadAll(tables)));
      && r.value.total == MeanSquare(a.magDiff)
      && r.value.inRange == MeanSquare(DiffInRange(a.mag1Total, AbsAll(a.magDiff), faintLimit, brightLimit))
  {
    var acc := Accumulate(tables);
    if acc.Err? {
      return Err(acc.error);
    }
    var a := acc.value;
    TotalScatter(ColumnsOf(ReadAll(tables)));
    AggregatedAbs(ColumnsOf(ReadAll(tables)));
    var totalScatter := MeanSquare(a.magDiffAbs);
    var scatterInRange := GetMagnitudeDiffScatterInMagnitudeRange(a.mag1Total, a.magDiffAbs, faintLimit, brightLimit);
    return Ok(Scatter(totalScatter, scatterInRange));
  }

  // ----- the individually plotted frames -----

  const FramesToPlot: nat := 4

  function CatalogMask(entries: seq<string>): (m: seq<bool>)
    ensures |m| == |entries| && forall i | 0 <= i < |entries| :: m[i] == EndsWith(entries[i], ".cat")
  {
    seq(|entries|, i requires 0 <= i < |entries| => EndsWith(entries[i], ".cat"))
  }

  /** `[f for f in os.listdir(d) if f.endswith(".cat")]` */
  function CatalogNames(entries: seq<string>): seq<string> {
    Select(entries, CatalogMask(entries))
  }

  /** The list holds exactly the directory entries ending in ".cat". */
  lemma CatalogNamesExact(entries: seq<string>, name: string)
    ensures name in CatalogNames(entries) <==> name in entries && EndsWith(name, ".cat")
  {
    SelectMember(entries, CatalogMask(entries), name);
  }

  datatype Sampling =
    | TooFewFrames(found: nat)                          // the warning is printed, nothing is plotted
    | Sample(positions: seq<nat>, picked: seq<string>)  // `random.sample(allFrames, 4)`

  /** `picked` is a draw of four entries of `all` at four different positions. */
  predicate IsSample(all: seq<string>, positions: seq<nat>, picked: seq<string>) {
    && |positions| == FramesToPlot && |picked| == FramesToPlot
    && (forall i | 0 <= i < FramesToPlot :: positions[i] < |all| && picked[i] == all[positions[i]])
    && (forall i, j | 0 <= i < j < FramesToPlot :: positions[i] != positions[j])
  }

  /** Four different positions below `n`. */
  predicate FourPositions(n: int, a: int, b: int, c: int, d: int) {
    0 <= a < n && 0 <= b < n && 0 <= c < n && 0 <= d < n && a != b && a != c && a != d && b != c && b != d && c != d
  }

  /** Fewer than four catalogues: nothing; otherwise some four distinct ones. Which four
      is left open. */
  method SampleFrames(allFrames: seq<string>) returns (s: Sampling)
    ensures s.TooFewFrames? <==> |allFrames| < FramesToPlot
    ensures s.TooFewFrames? ==> s.found == |allFrames|
    ensures s.Sample? ==> IsSample(allFrames, s.positions, s.picked)
  {
    var n := |allFrames|;
    if n < FramesToPlot {
      return TooFewFrames(n);
    }
    assert FourPositions(n, 0, 1, 2, 3);
    var a, b, c, d :| FourPositions(n, a, b, c, d);
    assert FourPositions(n, a, b, c, d);
    return Sample([a, b, c, d], [allFrames[a], allFrames[b], allFrames[c], allFrames[d]]);
  }

  /** Names listed once each (as a directory listing lists them) give four different
      catalogues. */
  lemma SampleDistinct(all: seq<string>, positions: seq<nat>, picked: seq<string>)
    requires IsSample(all, positions, picked)
    requires forall i, j | 0 <= i < j < |all| :: all[i] != all[j]
    ensures forall i, j | 0 <= i < j < FramesToPlot :: picked[i] != picked[j]
  {
    forall i, j | 0 <= i < j < FramesToPlot ensures picked[i] != picked[j] {
      if positions[i] < positions[j] {
        assert all[positions[i]] != all[positions[j]];
      } else {
        assert all[positions[j]] != all[positions[i]];
      }
    }
  }

  /** `name.split('_')[0]`: the text before the first underscore, or the whole name. */
  function FileNumber(name: string): (p: string)
    ensures p <= name && '_' !in p
    ensures |p| < |name| ==> name[|p|] == '_'
  {
    if name == [] || name[0] == '_' then [] else [name[0]] + FileNumber(name[1..])
  }

  /** The rule reads back the prefix a name was built from. */
  lemma {:induction false} FileNumberOfJoin(p: string, rest: string)
    requires '_' !in p
    ensures FileNumber(p + "_" + rest) == p
    ensures FileNumber(p) == p
  {
    if p != [] {
      assert p[0] in p;
      assert '_' !in p[1..] by {
        assert forall i | 0 <= i < |p| - 1 :: p[1..][i] == p[i + 1];
      }
      FileNumberOfJoin(p[1..], rest);
      assert (p + "_" + rest)[1..] == p[1..] + "_" + rest;
      assert [p[0]] + p[1..] == p;
    }
  }

  /** The image of one frame: `outputDir + "/calibrationPlot_" + number + ".png"`. */
  function PlotPath(outputDir: string, name: string): string {
    outputDir + "/calibrationPlot_" + FileNumber(name) + ".png"
  }

  /** Two frames write the same image exactly when their names share the text before the
      first underscore: the later one overwrites the earlier. */
  lemma PlotPathCollision(outputDir: string, name1: string, name2: string)
    ensures PlotPath(outputDir, name1) == PlotPath(outputDir, name2) <==> FileNumber(name1) == FileNumber(name2)
  {
    var pre := outputDir + "/calibrationPlot_";
    var p1, p2 := FileNumber(name1), FileNumber(name2);
    if PlotPath(outputDir, name1) == PlotPath(outputDir, name2) {
      var x := PlotPath(outputDir, name1);
      assert x == pre + p1 + ".png" && x == pre + p2 + ".png";
      assert |p1| == |p2|;
      assert x[|pre|..|pre| + |p1|] == p1;
      assert x[|pre|..|pre| + |p2|] == p2;
    }
  }

  /** What the loop computes for one selected frame before plotting it. */
  datatype FramePlot = FramePlot(path: string, total: Option<real>, inRange: Option<real>)

  /** The specification of one iteration. */
  function FrameSummary(outputDir: string, name: string, table: NdArray, faintLimit: real, brightLimit: real)
    : (r: Result<FramePlot, ColumnError>)
    requires Rectangular(table)
    ensures r.Err? <==> ReadColumns(table).Err?
    ensures r.Ok? ==> r.value.path == PlotPath(outputDir, name)
    ensures r.Ok? ==> var c := ReadColumns(table).value;
      && r.value.total == MeanSquare(Diff(c.mag1, c.mag2))
      && (r.value.total.Some? <==> |c.mag1| > 0)
      && r.value.inRange == MeanSquare(DiffInRange(c.mag1, AbsAll(Diff(c.mag1, c.mag2)), faintLimit, brightLimit))
  {
    match ReadColumns(table)
    case Err(e) => Err(e)
    case Ok(c) =>
      var d := Diff(c.mag1, c.mag2);
      MeanSquareAbs(d);
      Ok(FramePlot(PlotPath(outputDir, name), MeanSquare(AbsAll(d)),
                   MeanSquare(DiffInRange(c.mag1, AbsAll(d), faintLimit, brightLimit))))
  }

  /** The loop over the selected frames; `load(path)` stands for `np.loadtxt` on the
      catalogue at `path`. The first unreadable catalogue aborts the script. */
  method PlotFrames(directory: string, outputDir: string, selected: seq<string>, load: string -> NdArray,
                    faintLimit: real, brightLimit: real)
    returns (plots: seq<FramePlot>, failure: Option<ColumnError>)
    requires forall path :: Rectangular(load(path))
    ensures |plots| <= |selected|
    ensures failure.None? <==> |plots| == |selected|
    ensures forall i | 0 <= i < |plots| ::
      FrameSummary(outputDir, selected[i], load(directory + "/" + selected[i]), faintLimit, brightLimit) == Ok(plots[i])
    ensures failure.Some? ==>
      FrameSummary(outputDir, selected[|plots|], load(directory + "/" + selected[|plots|]), faintLimit, brightLimit)
        == Err(failure.value)
  {
    plots := [];
    for k := 0 to |selected|
      invariant |plots| == k
      invariant forall i | 0 <= i < k ::
        FrameSummary(outputDir, selected[i], load(directory + "/" + selected[i]), faintLimit, brightLimit) == Ok(plots[i])
    {
      var fileName := selected[k];
      var number := FileNumber(fileName);
      var c := ReadColumns(load(directory + "/" + fileName));
      if c.Err? {
        return plots, Some(c.error);
      }
      var mag1, mag2 := c.value.mag1, c.value.mag2;
      var magDiff := Diff(mag1, mag2);
      var magDiffAbs := AbsAll(magDiff);
      var totalScatter := MeanSquare(magDiffAbs);
      var scatterInRange := GetMagnitudeDiffScatterInMagnitudeRange(mag1, magDiffAbs, faintLimit, brightLimit);
      plots := plots + [FramePlot(outputDir + "/calibrationPlot_" + number + ".png", totalScatter, scatterInRange)];
    }
    return plots, None;
  }
}
