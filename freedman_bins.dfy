/** `calculateFreedmanBins` of `checkForBadFrames_fwhm.py`: histogram edges that start at
    the smallest value (or at a given first edge) and step by the Freedman-Diaconis
    width until the largest value is passed.

    The width comes from the statistics library and is a parameter here. */
module FreedmanBins {
  import opened Results

  /** `max(data)`. */
  function Max(data: seq<real>): (m: real)
    requires |data| > 0
    ensures m in data && forall i | 0 <= i < |data| :: data[i] <= m
  {
    if |data| == 1 then data[0]
    else
      var rest := Max(data[..|data| - 1]);
      if data[|data| - 1] > rest then data[|data| - 1] else rest
  }

  /** `min(data)`. */
  function Min(data: seq<real>): (m: real)
    requires |data| > 0
    ensures m in data && forall i | 0 <= i < |data| :: m <= data[i]
  {
    if |data| == 1 then data[0]
    else
      var rest := Min(data[..|data| - 1]);
      if data[|data| - 1] < rest then data[|data| - 1] else rest
  }

  /** `min` and `max` of an empty sequence raise. */
  datatype BinError = EmptyData

  /** The first edge: the given one, or the smallest value. */
  function StartEdge(data: seq<real>, initialValue: Option<real>): real
    requires |data| > 0
  {
    if initialValue.None? then Min(data) else initialValue.value
  }

  /** The source's loop stops: there is nothing to loop over, the width is positive, or
      the first edge already lies above every value. */
  predicate Terminates(data: seq<real>, initialValue: Option<real>, width: real) {
    |data| == 0 || width > 0.0 || StartEdge(data, initialValue) > Max(data)
  }

  /** `bins` is a list the loop can return: it begins at `start`, steps by `width`,
      every edge before the last is at most `top` and the last is above it. */
  predicate IsEdges(bins: seq<real>, start: real, width: real, top: real) {
    && |bins| > 0 && bins[0] == start
    && (forall i | 0 <= i < |bins| - 1 :: bins[i + 1] == bins[i] + width)
    && (forall i | 0 <= i < |bins| - 1 :: bins[i] <= top)
    && bins[|bins| - 1] > top
  }

  /** The edge `n` steps of `width` above `start`, as the loop computes it. */
  function Edge(start: real, width: real, n: nat): real {
    if n == 0 then start else Edge(start, width, n - 1) + width
  }

  /** Repeated addition is multiplication: edge `n` lies `n` widths above the first. */
  lemma {:induction false} EdgeLinear(start: real, width: real, n: nat)
    ensures Edge(start, width, n) == start + (n as real) * width
  {
    if n > 0 {
      EdgeLinear(start, width, n - 1);
      assert ((n - 1) as real) * width + width == (n as real) * width;
    }
  }

  lemma {:induction false} EdgeNotAbove(start: real, width: real, n: nat)
    requires width <= 0.0
    ensures Edge(start, width, n) <= start
  {
    if n > 0 {
      EdgeNotAbove(start, width, n - 1);
    }
  }

  /** How many steps of a positive width fit between `start` and `top`. */
  lemma StepsBounded(start: real, top: real, width: real, m: nat)
    requires width > 0.0 && Edge(start, width, m) <= top
    ensures m <= ((top - start) / width).Floor
  {
    EdgeLinear(start, width, m);
    var q := (top - start) / width;
    assert q * width == top - start;
    assert (m as real) * width <= q * width;
    MultiplyCancel(m as real, q, width);
  }

  lemma MultiplyCancel(a: real, b: real, w: real)
    requires w > 0.0 && a * w <= b * w
    ensures a <= b
  {
    assert a * w - b * w == (a - b) * w;
  }

  method CalculateFreedmanBins(data: seq<real>, initialValue: Option<real>, width: real)
    returns (r: Result<seq<real>, BinError>)
    requires Terminates(data, initialValue, width)
    ensures r.Err? <==> |data| == 0
    ensures r.Ok? ==> IsEdges(r.value, StartEdge(data, initialValue), width, Max(data))
  {
    if |data| == 0 {
      return Err(EmptyData);
    }
    var bins := [if initialValue.None? then Min(data) else initialValue.value];
    var top := Max(data);
    ghost var start := bins[0];
    ghost var bound := if width > 0.0 && start <= top then ((top - start) / width).Floor + 1 else 0;
    while bins[|bins| - 1] <= top
      invariant |bins| > 0 && bins[0] == start
      invariant forall i | 0 <= i < |bins| - 1 :: bins[i + 1] == bins[i] + width
      invariant forall i | 0 <= i < |bins| - 1 :: bins[i] <= top
      invariant bins[|bins| - 1] == Edge(start, width, |bins| - 1)
      invariant width <= 0.0 ==> |bins| == 1
      decreases bound - (|bins| - 1)
    {
      if width > 0.0 {
        StepsBounded(start, top, width, |bins| - 1);
      }
      bins := bins + [bins[|bins| - 1] + width];
    }
    return Ok(bins);
  }

  /** Edge `i` of a returned list is the loop's `i`-th step from the first. */
  lemma {:induction false} EdgesClosedForm(bins: seq<real>, start: real, width: real, top: real, i: nat)
    requires IsEdges(bins, start, width, top) && i < |bins|
    ensures bins[i] == Edge(start, width, i)
    ensures bins[i] == start + (i as real) * width
  {
    if i > 0 {
      EdgesClosedForm(bins, start, width, top, i - 1);
    }
    EdgeLinear(start, width, i);
  }

  /** With a width that is not positive, no list satisfies the loop's exit condition once
      the first edge is at most the largest value: the source's loop never stops there. */
  lemma NoEdgesForNonPositiveWidth(bins: seq<real>, start: real, width: real, top: real)
    requires width <= 0.0 && start <= top
    ensures !IsEdges(bins, start, width, top)
  {
    if IsEdges(bins, start, width, top) {
      EdgesClosedForm(bins, start, width, top, |bins| - 1);
      EdgeNotAbove(start, width, |bins| - 1);
    }
  }

  /** The exit condition determines the list: the loop has exactly one possible result. */
  lemma EdgesUnique(b1: seq<real>, b2: seq<real>, start: real, width: real, top: real)
    requires IsEdges(b1, start, width, top) && IsEdges(b2, start, width, top)
    ensures b1 == b2
  {
    if |b1| < |b2| {
      EdgesClosedForm(b1, start, width, top, |b1| - 1);
      EdgesClosedForm(b2, start, width, top, |b1| - 1);
    } else if |b2| < |b1| {
      EdgesClosedForm(b1, start, width, top, |b2| - 1);
      EdgesClosedForm(b2, start, width, top, |b2| - 1);
    } else {
      forall i | 0 <= i < |b1| ensures b1[i] == b2[i] {
        EdgesClosedForm(b1, start, width, top, i);
        EdgesClosedForm(b2, start, width, top, i);
      }
    }
  }

  /** A first edge above the largest value is returned alone. */
  lemma StartAboveTop(bins: seq<real>, start: real, width: real, top: real)
    requires IsEdges(bins, start, width, top) && start > top
    ensures bins == [start]
  {
  }

  /** The last edge overshoots the largest value by at most one width. */
  lemma LastEdgeTight(bins: seq<real>, start: real, width: real, top: real)
    requires IsEdges(bins, start, width, top) && |bins| > 1
    ensures top < bins[|bins| - 1] <= top + width
  {
    assert bins[|bins| - 2] <= top;
  }

  /** Edges of a positive width increase strictly. */
  lemma {:induction false} EdgesIncreasing(bins: seq<real>, start: real, width: real, top: real, i: nat, j: nat)
    requires IsEdges(bins, start, width, top) && width > 0.0 && i < j < |bins|
    ensures bins[i] < bins[j]
  {
    if i + 1 < j {
      EdgesIncreasing(bins, start, width, top, i, j - 1);
    }
  }

  /** Starting from the smallest value, every value falls in some bin `[bins[i], bins[i+1])`. */
  lemma EdgesCoverData(data: seq<real>, bins: seq<real>, width: real, x: real)
    requires |data| > 0 && width > 0.0 && x in data
    requires IsEdges(bins, Min(data), width, Max(data))
    ensures exists i | 0 <= i < |bins| - 1 :: bins[i] <= x < bins[i + 1]
  {
    FindBin(bins, Min(data), width, Max(data), x, 0);
  }

  lemma {:induction false} FindBin(bins: seq<real>, start: real, width: real, top: real, x: real, j: nat)
    requires IsEdges(bins, start, width, top) && j < |bins| && bins[j] <= x <= top
    ensures exists i | j <= i < |bins| - 1 :: bins[i] <= x < bins[i + 1]
    decreases |bins| - j
  {
    assert j < |bins| - 1;
    if x >= bins[j + 1] {
      FindBin(bins, start, width, top, x, j + 1);
    }
  }
}
