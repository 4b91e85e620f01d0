# Bad-frame detection and calibration diagnosis — a Dafny model

This project models two steps of the reduction pipeline here.

**Bad-frame detection** (`checkForBadFrames_fwhm.py`). Each frame leaves a small text file `range1_*.txt` holding its FWHM (seeing) estimate. The script:

- reads the FWHM value out of every such file, using a strict one-record parser;
- drops the frames whose value is NaN, i.e. frames lost earlier in the reduction;
- builds Freedman–Diaconis histogram bin edges for the values;
- sigma-clips the FWHM values of the files whose path does not match `*done*.txt`;
- writes the `entirecamera_<n>` identifier of every rejected frame to a report, one per line.

**Calibration diagnosis** (`diagnosis_magVsDeltaMag.py`). This step reads two-column catalogues of reference and measured magnitudes, one per frame. It then:

- concatenates the magnitudes, the magnitude differences, their absolute values and a frame index over all catalogues;
- computes the total scatter of the differences and their scatter inside a calibration magnitude range;
- repeats the same per-frame computation for four randomly sampled catalogues, naming each plot after the frame number.

Modules:

- `Results`: the Option and Result datatypes.
- `Strings`: Python's `str.split()` / `str.strip()` without arguments, `readlines()`, `endswith` and `in`, with the lemmas connecting them.
- `Masking`: boolean-mask selection (`array[mask]`), used both for numpy masks and for list filters.
- `FwhmRecords`: `retrieveFWHMValues`, the record parser.
- `BadFrames`:
  - the first pass that collects FWHM values;
  - `identifyBadFrames`, specified over the sequence of parse outcomes of the listed files.
- `FrameReport`: the `re.search(r"entirecamera_\d+")` identifier extraction and the report writing loop.
- `FreedmanBins`: `calculateFreedmanBins`, the loop that builds bin edges.
- `MagnitudeDiagnosis`: the diagnosis script: column reading, scatter in range, accumulation over all catalogues, sampling and the per-frame loop.

**Error message versus code.** The error message of `retrieveFWHMValues` speaks of a file with more than one line. Its test, however, rejects every line count other than one, so an empty file is rejected too. The model follows the test; see `FwhmRecords.EmptyFileRejected`.

**One-column catalogues.** `np.loadtxt` returns a 1-d array both for one line of several numbers and for one column of several lines. `read_columns_from_file` reshapes either into a single row. A one-column catalogue of several lines is therefore read as one magnitude pair: its first two values. The model keeps this behaviour; see `MagnitudeDiagnosis.OneColumnFileReadAsRow`.

**How values are modelled.**

- **Files.** Files are given as values: a path with its text, or a catalogue's loaded array. The order of the given sequence stands for the order `glob`/`listdir` returns.
- **Floats.** An FWHM value is kept as the token `float()` would convert. A token shaped like `nan` (any case, optional sign) is NaN, as `float` makes it.
- **Scatter.** Magnitudes are `real`. Each scatter is modelled as the mean of squares, the quantity under the square root; `np.mean` of an empty array is `None`.
- **Library calls.** `sigma_clip` and `random.sample` are parameters or choices, constrained only by what the code relies on: a mask as long as its input, and four distinct positions.

## Model

| member | source | states |
|---|---|---|
| FwhmRecords.IsNanToken | pipelineScripts/checkForBadFrames_fwhm.py:117 | the tokens `float` turns into NaN: `nan` in any letter case, with an optional sign |
| FwhmRecords.IsNaN | pipelineScripts/checkForBadFrames_fwhm.py:135 | `math.isnan` of a reading: the missing marker of a blank record, or a NaN token |
| FwhmRecords.RetrieveFwhmValue | pipelineScripts/checkForBadFrames_fwhm.py:55-69 | line-count error exactly when the file does not have one line (carrying file name and count); with one line, 4 fields give the first field, 0 fields give the missing marker (NaN), any other count is a field-count error carrying that count |
| FwhmRecords.EmptyFileRejected | pipelineScripts/checkForBadFrames_fwhm.py:57-59 | an empty file is rejected with a line count of 0, although the message says "more than 1 line" |
| FwhmRecords.SecondLineRejected | pipelineScripts/checkForBadFrames_fwhm.py:57-59 | any text with something after its first newline is a line-count error, whatever the first line holds |
| FwhmRecords.FourFieldRecord | pipelineScripts/checkForBadFrames_fwhm.py:61-65 | a single line of four whitespace-separated words, with any leading or trailing blanks, yields the first word |
| FwhmRecords.BlankRecord | pipelineScripts/checkForBadFrames_fwhm.py:61-67 | a blank single line yields the NaN marker, not an error |
| FwhmRecords.FieldCountRule | pipelineScripts/checkForBadFrames_fwhm.py:61-69 | for any words joined by single spaces and newline-terminated: 4 words give the first one, 0 words give the NaN marker, any other number is a field-count error carrying that number |
| FwhmRecords.NoNewlineInJoin | pipelineScripts/checkForBadFrames_fwhm.py:57 | words without a newline join into one line |
| Strings.Strip | pipelineScripts/checkForBadFrames_fwhm.py:61 | `strip()`: leading whitespace removed, then trailing whitespace |
| Strings.StripSpec | pipelineScripts/checkForBadFrames_fwhm.py:61 | the stripped text neither starts nor ends with whitespace, and the original is it with whitespace on both sides; it is empty exactly when the text is all whitespace |
| Strings.StripThenSplit | pipelineScripts/checkForBadFrames_fwhm.py:61 | `strip()` before `split()` does not change the fields |
| Strings.SplitSeparated | pipelineScripts/checkForBadFrames_fwhm.py:61 | a text, a non-empty run of whitespace and a rest split into the text's fields followed by the rest's fields |
| Strings.SplitEmptyIffAllSpace | pipelineScripts/checkForBadFrames_fwhm.py:66 | `split()` gives no field exactly when the text is all whitespace |
| Strings.SplitJoinWords | pipelineScripts/checkForBadFrames_fwhm.py:61-62 | splitting words joined by spaces gives back exactly those words |
| Strings.SplitFourWords | pipelineScripts/checkForBadFrames_fwhm.py:61-64 | four words separated by whitespace, with blank padding, split into exactly those four |
| Strings.Split | pipelineScripts/checkForBadFrames_fwhm.py:61 | every field is a non-empty word free of whitespace |
| Strings.ReadLines | pipelineScripts/checkForBadFrames_fwhm.py:57 | every line is non-empty with a newline at most at its end, every line but the last ends in a newline, and only the empty text has no lines |
| Strings.ReadLinesConcat | pipelineScripts/checkForBadFrames_fwhm.py:57 | the lines `readlines` returns concatenate back to the whole text: nothing is lost or added |
| Strings.ReadLinesOfLines | pipelineScripts/checkForBadFrames_fwhm.py:156 | reading back newline-terminated lines written one after the other gives exactly those lines |
| Strings.SingleLine | pipelineScripts/checkForBadFrames_fwhm.py:57-58 | a text with no newline before its end reads as exactly one line (itself) |
| BadFrames.CollectFwhmValues | pipelineScripts/checkForBadFrames_fwhm.py:114-118 | succeeds exactly when every listed file parses; then returns the non-NaN values in file order; otherwise reports the first file's error with all earlier files parsed |
| BadFrames.ValuesExact | pipelineScripts/checkForBadFrames_fwhm.py:116-118 | a token is collected exactly when some file parses to it and it is not NaN |
| BadFrames.ValuesInOrder | pipelineScripts/checkForBadFrames_fwhm.py:115-118 | the i-th collected value is the value of the file at the i-th position that parsed to a non-NaN value |
| BadFrames.IsDoneFile | pipelineScripts/checkForBadFrames_fwhm.py:131 | `fnmatch(path, '*done*.txt')` on the whole path: it ends in `.txt` and `done` occurs before that suffix |
| BadFrames.DoneFileShape | pipelineScripts/checkForBadFrames_fwhm.py:131 | every done file has the shape text + `done` + text + `.txt` |
| BadFrames.ShapeIsDoneFile | pipelineScripts/checkForBadFrames_fwhm.py:131 | every path of the shape text + `done` + text + `.txt` is a done file, whatever its directories |
| BadFrames.DoneDirectory | pipelineScripts/checkForBadFrames_fwhm.py:131-132 | any `.txt` file under a path containing `done` is skipped by the second pass |
| BadFrames.IdentifyBadFrames | pipelineScripts/checkForBadFrames_fwhm.py:125-146 | skips done files before parsing them, fails exactly when a remaining file fails to parse (with the first such error), and otherwise returns the kept paths selected by the clip mask of the kept values |
| BadFrames.KeptListsSameLength | pipelineScripts/checkForBadFrames_fwhm.py:137-138 | the kept paths and the kept values always have the same length |
| BadFrames.KeptListsAligned | pipelineScripts/checkForBadFrames_fwhm.py:130-139 | the kept paths and kept values have equal length and the i-th of each come from the same non-done file with a non-NaN value |
| BadFrames.KeptFileListed | pipelineScripts/checkForBadFrames_fwhm.py:130-139 | every non-done file with a non-NaN value has its path and its value kept |
| BadFrames.BadFilesAreKept | pipelineScripts/checkForBadFrames_fwhm.py:142-146 | every reported bad file is one of the listed files and not a done file |
| FrameReport.SearchFrameId | pipelineScripts/checkForBadFrames_fwhm.py:151-155 | no match exactly when `entirecamera_` followed by a digit occurs nowhere; otherwise the identifier at the leftmost occurrence, with its greedy digit run |
| FrameReport.FrameIdMaximal | pipelineScripts/checkForBadFrames_fwhm.py:151 | at a match the digit run is non-empty and stops only at a non-digit or the end of the name |
| FrameReport.WriteReport | pipelineScripts/checkForBadFrames_fwhm.py:152-156 | with every name matched, writes each identifier followed by a newline, in order; otherwise stops at the first unmatched name, having written the lines of the names before it |
| FrameReport.ReportLines | pipelineScripts/checkForBadFrames_fwhm.py:152-156 | the report reads back as one line per bad file, each the identifier of that file plus a newline |
| FrameReport.IdHasNoNewline | pipelineScripts/checkForBadFrames_fwhm.py:155-156 | an identifier holds no newline, so each report entry is one line |
| FreedmanBins.Max | pipelineScripts/checkForBadFrames_fwhm.py:82 | the maximum is an element and bounds every element from above |
| FreedmanBins.Min | pipelineScripts/checkForBadFrames_fwhm.py:76-77 | the minimum is an element and bounds every element from below |
| FreedmanBins.CalculateFreedmanBins | pipelineScripts/checkForBadFrames_fwhm.py:75-85 | fails exactly on empty data (`min` of nothing); otherwise returns edges starting at the minimum or the given initial value, stepping by the bin width, with the last edge the first above the maximum |
| FreedmanBins.EdgesClosedForm | pipelineScripts/checkForBadFrames_fwhm.py:82-83 | the i-th edge is the start plus i widths |
| FreedmanBins.EdgesIncreasing | pipelineScripts/checkForBadFrames_fwhm.py:82-83 | with a positive width the edges are strictly increasing |
| FreedmanBins.NoEdgesForNonPositiveWidth | pipelineScripts/checkForBadFrames_fwhm.py:81-83 | with a zero or negative width and a start not above the maximum no edge list satisfies the loop's exit condition: the loop does not terminate |
| FreedmanBins.EdgesUnique | pipelineScripts/checkForBadFrames_fwhm.py:82-85 | the edge list is determined by start, width and maximum |
| FreedmanBins.StartAboveTop | pipelineScripts/checkForBadFrames_fwhm.py:79-82 | an initial value above the maximum gives just that one edge |
| FreedmanBins.LastEdgeTight | pipelineScripts/checkForBadFrames_fwhm.py:82-83 | with more than one edge, the last edge is above the maximum by at most one width |
| FreedmanBins.EdgesCoverData | pipelineScripts/checkForBadFrames_fwhm.py:88-93 | every value falls in some half-open bin of the edges built from the data |
| MagnitudeDiagnosis.ReadColumns | pipelineScripts/diagnosis_magVsDeltaMag.py:52-58 | a 0-dimensional array is an indexing error; the two columns, when read, have equal length |
| MagnitudeDiagnosis.OneColumnFileReadAsRow | pipelineScripts/diagnosis_magVsDeltaMag.py:53-57 | a one-column catalogue of values 10, 12, 15 reads as the single pair (10, 12) |
| MagnitudeDiagnosis.ColumnsOfTable | pipelineScripts/diagnosis_magVsDeltaMag.py:56-58 | a table with at least two columns gives its first and second columns; narrower tables give the out-of-bounds error of the first missing column |
| MagnitudeDiagnosis.OneRowTable | pipelineScripts/diagnosis_magVsDeltaMag.py:54-55 | a one-dimensional array reads as a one-row table, so one catalogue line gives one magnitude pair |
| MagnitudeDiagnosis.MeanSquare | pipelineScripts/diagnosis_magVsDeltaMag.py:66 | undefined exactly for an empty array, otherwise non-negative |
| MagnitudeDiagnosis.MeanSquareAbs | pipelineScripts/diagnosis_magVsDeltaMag.py:132 | the scatter of absolute differences equals the scatter of the signed differences |
| MagnitudeDiagnosis.DiffInRange | pipelineScripts/diagnosis_magVsDeltaMag.py:61-65 | `diffMagInRange`: the differences at the positions whose magnitude is in range, selected in order |
| MagnitudeDiagnosis.GetMagnitudeDiffScatterInMagnitudeRange | pipelineScripts/diagnosis_magVsDeltaMag.py:60-66 | returns the mean square of the differences at exactly the positions whose magnitude lies strictly between the bright and faint limits, in order |
| MagnitudeDiagnosis.InRangeMaskAt | pipelineScripts/diagnosis_magVsDeltaMag.py:64 | the range test at position i is `bright < mag[i] < faint` |
| MagnitudeDiagnosis.DiffInRangeAt | pipelineScripts/diagnosis_magVsDeltaMag.py:63-65 | the j-th kept difference is the difference at an in-range position |
| MagnitudeDiagnosis.InRangeKept | pipelineScripts/diagnosis_magVsDeltaMag.py:63-65 | the difference at every in-range position is kept, so the mean is defined |
| MagnitudeDiagnosis.DiffInRangeBounds | pipelineScripts/diagnosis_magVsDeltaMag.py:60-66 | at most one difference per magnitude is kept; limits with bright not below faint keep nothing and leave the scatter undefined |
| MagnitudeDiagnosis.Aggregated | pipelineScripts/diagnosis_magVsDeltaMag.py:117-130 | the four accumulated arrays each have one entry per catalogue row |
| MagnitudeDiagnosis.AggregatedRow | pipelineScripts/diagnosis_magVsDeltaMag.py:123-130 | row j of catalogue k sits at the offset of the earlier catalogues plus j, with its magnitude, difference, absolute difference and frame index k |
| MagnitudeDiagnosis.AggregatedAbs | pipelineScripts/diagnosis_magVsDeltaMag.py:126-127 | the accumulated absolute differences are the absolute values of the accumulated differences |
| MagnitudeDiagnosis.FrameNumberNonDecreasing | pipelineScripts/diagnosis_magVsDeltaMag.py:123-130 | the frame index array is non-decreasing and below the number of catalogues |
| MagnitudeDiagnosis.TotalScatter | pipelineScripts/diagnosis_magVsDeltaMag.py:132 | the total scatter equals that of the signed differences and is defined exactly when some catalogue has a row |
| MagnitudeDiagnosis.Accumulate | pipelineScripts/diagnosis_magVsDeltaMag.py:117-130 | succeeds exactly when every catalogue reads, then returns their concatenation; otherwise the first catalogue's column error |
| MagnitudeDiagnosis.ScatterOfAllFrames | pipelineScripts/diagnosis_magVsDeltaMag.py:117-133 | on success the total scatter is the mean square of all differences and the in-range scatter that of the absolute differences of in-range rows; fails as Accumulate does |
| MagnitudeDiagnosis.CatalogNames | pipelineScripts/diagnosis_magVsDeltaMag.py:139 | the directory entries ending in `.cat`, in listing order |
| MagnitudeDiagnosis.CatalogNamesExact | pipelineScripts/diagnosis_magVsDeltaMag.py:139 | a name is listed exactly when it is a directory entry ending in `.cat` |
| MagnitudeDiagnosis.SampleFrames | pipelineScripts/diagnosis_magVsDeltaMag.py:141-144 | fewer than four catalogues give the warning case with their count; otherwise four frames at distinct positions |
| MagnitudeDiagnosis.SampleDistinct | pipelineScripts/diagnosis_magVsDeltaMag.py:144 | from distinct names the four sampled names are distinct |
| MagnitudeDiagnosis.FileNumber | pipelineScripts/diagnosis_magVsDeltaMag.py:147 | the frame number is the longest prefix without `_`, followed by `_` unless it is the whole name |
| MagnitudeDiagnosis.FileNumberOfJoin | pipelineScripts/diagnosis_magVsDeltaMag.py:147 | a prefix without `_` is recovered from itself and from itself joined by `_` to anything |
| MagnitudeDiagnosis.PlotPath | pipelineScripts/diagnosis_magVsDeltaMag.py:154 | the plot file `<outputDir>/calibrationPlot_<frame number>.png` |
| MagnitudeDiagnosis.PlotPathCollision | pipelineScripts/diagnosis_magVsDeltaMag.py:147-154 | two sampled frames write the same plot file exactly when their frame numbers agree |
| MagnitudeDiagnosis.FrameSummary | pipelineScripts/diagnosis_magVsDeltaMag.py:148-154 | a frame fails exactly when its columns cannot be read; otherwise its plot path is named after the frame number and its total scatter is the mean square of its differences, defined exactly when it has rows; its in-range scatter is the mean square of the absolute differences of its in-range rows |
| MagnitudeDiagnosis.PlotFrames | pipelineScripts/diagnosis_magVsDeltaMag.py:146-154 | produces one summary per selected frame in order; stops at the first unreadable one with that frame's error |
| Masking.Select | pipelineScripts/checkForBadFrames_fwhm.py:145 | `allFiles[mask]`: the result has one element per flagged position |
| Masking.SelectMember | pipelineScripts/checkForBadFrames_fwhm.py:145 | an element is selected exactly when it sits at a flagged position |
| Masking.SelectAt | pipelineScripts/checkForBadFrames_fwhm.py:144-145 | the i-th selected element (the i-th bad file) is the element at the i-th flagged position |
| Masking.PositionIncreasing | pipelineScripts/checkForBadFrames_fwhm.py:145 | selection keeps the original order |

## Left out

- Plotting: `setMatplotlibConf`, `configureAxis`, the histogram figure of `saveHistogram`, `plotWithAllFrames` and `plotWithSingleFrame` draw but compute nothing that is stored. `MagnitudeDiagnosis.PlotFrames` and `ScatterOfAllFrames` return the values and file names those plots receive.
- `computeMedianAndStd` calls astropy's `sigma_clipped_stats`. Its median and standard deviation only label the histogram. This library is not part of this model.
- `BadFrames.IdentifyBadFrames` takes the sigma-clip outcome as a function parameter. Only its length is constrained. The clipping statistics (median centre, 5 iterations, the sigma argument) are not modelled.
- `FreedmanBins.CalculateFreedmanBins` takes the bin width as a parameter rather than computing astropy's `freedman_bin_width`.
- `FreedmanBins.CalculateFreedmanBins` requires that the loop terminates: the data are empty, the width is positive, or the start is above the maximum. `NoEdgesForNonPositiveWidth` shows that the source loops forever otherwise, e.g. when `freedman_bin_width` returns 0 for data with zero interquartile range.
- File system: opening files, `glob.glob` and `os.listdir` are replaced by given sequences of (path, text) pairs, catalogue names and a loading function. Their order is the given order. Errors from opening a file are not modelled.
- `np.loadtxt` parsing (comments, number conversion) is not modelled. A catalogue arrives as its loaded array (scalar, vector or matrix), and ragged input, which loadtxt rejects, is excluded by `Rectangular`.
- Conversion of a token to a float is not modelled. FWHM values stay as their text tokens, so a non-numeric token's `ValueError` is not represented. Only NaN spellings (`nan` in any case, optional sign) are recognised as NaN.
- Floating point: magnitudes, FWHM bin widths and bin edges are exact reals, and rounding is not modelled. In IEEE arithmetic the bin loop also fails to end when the width is positive but below half an ulp of the edges, because `bins[-1] + binWidht` then equals `bins[-1]`. `FreedmanBins.CalculateFreedmanBins` does not capture that case.
- `MagnitudeDiagnosis.MeanSquare`: the square root is not taken. Every scatter is the mean of squares, from which the RMS follows monotonically. numpy's NaN for the mean of an empty array is `None`.
- `Strings.ReadLines` splits on `\n` only; it models `readlines()` on text after universal-newline translation, so a bare `\r` is not a line end.
- `FrameReport.IsDigit` accepts ASCII digits only. Python's `\d` also matches other Unicode decimal digits.
- `MagnitudeDiagnosis.GetMagnitudeDiffScatterInMagnitudeRange` requires `magDiff` to be at least as long as `mag`. The `IndexError` of a shorter `magDiff` is not modelled. Both callers pass arrays of equal length.
- `MagnitudeDiagnosis.SampleFrames`: which four frames `random.sample` picks, and with what distribution, is left open. The model proves only that the picked positions are distinct and in range.
- The printed warning for too few catalogues is represented by the `TooFewFrames` result carrying the count. The text itself is not modelled.
- `FrameReport.WriteReport` represents the `AttributeError` on a name without a match as the index where writing stops. Exceptions as such and the file handle are not modelled.
- Exceptions raised by `retrieveFWHMValues` stop the script: `CollectFwhmValues` and `IdentifyBadFrames` return the first error instead of raising. The message texts are represented by the error's data (the file name and the line or field count).
