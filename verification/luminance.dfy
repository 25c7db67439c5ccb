/** The luminance engine of `app/core/luminance.py`: Rec. 709 luma per
    pixel, the mean, the median, the 0-100 brightness score and the edge
    strips. A luminance grid is a list of rows; numpy's float64 values are
    exact reals here. */
module Luminance {
  import opened Wrappers
  import opened Config

  /** One RGB pixel of 8-bit channels. */
  datatype Pixel = Pixel(r: byte, g: byte, b: byte)

  /** A grid of `height` rows of `width` cells each. */
  predicate IsGrid<T>(g: seq<seq<T>>, height: nat, width: nat)
  {
    |g| == height && forall i :: 0 <= i < |g| ==> |g[i]| == width
  }

  // ---------------------------------------------------------------------
  // calculate_luminance

  function Luma(p: Pixel): (y: real)
    ensures 0.0 <= y <= LUMINANCE_MAX as real
  {
    REC709_R * p.r as real + REC709_G * p.g as real + REC709_B * p.b as real
  }

  /** `calculate_luminance`: the luma of every pixel, in a grid of the same
      shape. */
  function CalculateLuminance(image: seq<seq<Pixel>>): (lum: seq<seq<real>>)
    ensures |lum| == |image|
    ensures forall i :: 0 <= i < |lum| ==> |lum[i]| == |image[i]|
    ensures forall i, j :: 0 <= i < |lum| && 0 <= j < |lum[i]| ==>
              lum[i][j] == Luma(image[i][j]) && 0.0 <= lum[i][j] <= 255.0
  {
    seq(|image|, i requires 0 <= i < |image| => seq(|image[i]|, j requires 0 <= j < |image[i]| => Luma(image[i][j])))
  }

  /** The weights sum to one, so a grey pixel keeps its level: black is 0,
      white is 255 and (100, 100, 100) is 100. */
  lemma GreyLuma(v: byte)
    ensures Luma(Pixel(v, v, v)) == v as real
  {
    calc {
      Luma(Pixel(v, v, v));
      (REC709_R + REC709_G + REC709_B) * v as real;
    }
  }

  /** Pure green is brighter than pure red, which is brighter than pure blue. */
  lemma PrimaryOrder()
    ensures Luma(Pixel(0, 255, 0)) > Luma(Pixel(255, 0, 0)) > Luma(Pixel(0, 0, 255))
  {
  }

  // ---------------------------------------------------------------------
  // Flattening (numpy's row-major `flatten`)

  function Flatten(rows: seq<seq<real>>): (r: seq<real>)
  {
    if rows == [] then [] else rows[0] + Flatten(rows[1..])
  }

  lemma {:induction false} FlattenLength(rows: seq<seq<real>>, width: nat)
    requires forall i :: 0 <= i < |rows| ==> |rows[i]| == width
    ensures |Flatten(rows)| == |rows| * width
  {
    if rows != [] {
      FlattenLength(rows[1..], width);
    }
  }

  /** Every flattened value comes from one of the rows. */
  lemma {:induction false} FlattenMember(rows: seq<seq<real>>, x: real)
    requires x in Flatten(rows)
    ensures exists i :: 0 <= i < |rows| && x in rows[i]
  {
    if x !in rows[0] {
      FlattenMember(rows[1..], x);
      var i :| 0 <= i < |rows[1..]| && x in rows[1..][i];
      assert x in rows[i + 1];
    }
  }

  lemma {:induction false} FlattenConcat(a: seq<seq<real>>, b: seq<seq<real>>)
    ensures Flatten(a + b) == Flatten(a) + Flatten(b)
  {
    if a == [] {
      assert a + b == b;
    } else {
      assert (a + b)[1..] == a[1..] + b;
      FlattenConcat(a[1..], b);
    }
  }

  // ---------------------------------------------------------------------
  // calculate_average_luminance

  function Sum(xs: seq<real>): real
  {
    if xs == [] then 0.0 else xs[0] + Sum(xs[1..])
  }

  /** `luminance.mean()`; numpy's NaN for an empty array is not modelled. */
  function Mean(xs: seq<real>): real
    requires |xs| > 0
  {
    Sum(xs) / |xs| as real
  }

  lemma {:induction false} SumBounds(xs: seq<real>, lo: real, hi: real)
    requires forall k :: 0 <= k < |xs| ==> lo <= xs[k] <= hi
    ensures |xs| as real * lo <= Sum(xs) <= |xs| as real * hi
  {
    if xs != [] {
      SumBounds(xs[1..], lo, hi);
      assert |xs| as real * lo == lo + |xs[1..]| as real * lo;
      assert |xs| as real * hi == hi + |xs[1..]| as real * hi;
    }
  }

  /** The mean lies between any bounds of the values, and so is the value
      itself on a constant list. */
  lemma MeanBounds(xs: seq<real>, lo: real, hi: real)
    requires |xs| > 0
    requires forall k :: 0 <= k < |xs| ==> lo <= xs[k] <= hi
    ensures lo <= Mean(xs) <= hi
  {
    SumBounds(xs, lo, hi);
    var n := |xs| as real;
    assert n * lo <= Sum(xs) <= n * hi;
    assert Sum(xs) / n >= lo by {
      assert Sum(xs) >= lo * n;
    }
    assert Sum(xs) / n <= hi by {
      assert Sum(xs) <= hi * n;
    }
  }

  lemma MeanConstant(xs: seq<real>, v: real)
    requires |xs| > 0
    requires forall k :: 0 <= k < |xs| ==> xs[k] == v
    ensures Mean(xs) == v
  {
    MeanBounds(xs, v, v);
  }

  /** The mean of [100, 200, 150, 150] is 150. */
  lemma MeanExample()
    ensures Mean([100.0, 200.0, 150.0, 150.0]) == 150.0
  {
    assert Sum([100.0, 200.0, 150.0, 150.0]) == 600.0 by {
      assert [100.0, 200.0, 150.0, 150.0][1..] == [200.0, 150.0, 150.0];
      assert [200.0, 150.0, 150.0][1..] == [150.0, 150.0];
      assert [150.0, 150.0][1..] == [150.0];
      assert [150.0][1..] == [];
    }
  }

  // ---------------------------------------------------------------------
  // calculate_median_luminance

  predicate Sorted(xs: seq<real>)
  {
    forall i, j :: 0 <= i < j < |xs| ==> xs[i] <= xs[j]
  }

  /** Putting the least element in front of a sorted sequence of the rest. */
  lemma ConsSorted(y: real, x: real, tail: seq<real>, rest: seq<real>)
    requires Sorted([y] + tail) && y < x
    requires Sorted(rest) && multiset(rest) == multiset(tail) + multiset{x}
    ensures Sorted([y] + rest)
    ensures multiset([y] + rest) == multiset([y] + tail) + multiset{x}
  {
    forall k | 0 <= k < |rest| ensures y <= rest[k] {
      assert rest[k] in multiset(rest);
      if rest[k] != x {
        assert rest[k] in multiset(tail);
        var m :| 0 <= m < |tail| && tail[m] == rest[k];
        assert ([y] + tail)[0] == y && ([y] + tail)[m + 1] == tail[m];
      }
    }
    var r := [y] + rest;
    forall i, j | 0 <= i < j < |r| ensures r[i] <= r[j] {
      if i > 0 {
        assert r[i] == rest[i - 1] && r[j] == rest[j - 1];
      } else {
        assert r[j] == rest[j - 1];
      }
    }
  }

  function InsertSorted(x: real, s: seq<real>): (r: seq<real>)
    requires Sorted(s)
    ensures Sorted(r)
    ensures multiset(r) == multiset(s) + multiset{x}
  {
    if s == [] then [x]
    else if x <= s[0] then [x] + s
    else
      assert s == [s[0]] + s[1..];
      var rest := InsertSorted(x, s[1..]);
      ConsSorted(s[0], x, s[1..], rest);
      [s[0]] + rest
  }

  /** The values in ascending order. */
  function Sort(xs: seq<real>): (r: seq<real>)
    ensures Sorted(r) && multiset(r) == multiset(xs)
  {
    if xs == [] then []
    else
      assert xs == [xs[0]] + xs[1..];
      InsertSorted(xs[0], Sort(xs[1..]))
  }

  /** The head of an ascending list is its least value. */
  lemma SortedHeadLeast(s: seq<real>, x: real)
    requires Sorted(s) && x in multiset(s)
    ensures s[0] <= x
  {
    var i :| 0 <= i < |s| && s[i] == x;
  }

  /** The tail of an ascending list is ascending and holds the other values. */
  lemma SortedTail(s: seq<real>)
    requires Sorted(s) && s != []
    ensures Sorted(s[1..])
    ensures multiset(s[1..]) == multiset(s) - multiset{s[0]}
  {
    assert s == [s[0]] + s[1..];
  }

  /** Two ascending lists of the same values are the same list. */
  lemma {:induction false} SortedUnique(a: seq<real>, b: seq<real>)
    requires Sorted(a) && Sorted(b) && multiset(a) == multiset(b)
    ensures a == b
  {
    if a == [] {
      assert |b| == |multiset(b)| == 0;
    } else {
      assert |b| == |multiset(b)| == |multiset(a)| > 0;
      assert a[0] in multiset(a);
      assert b[0] in multiset(b);
      SortedHeadLeast(b, a[0]);
      SortedHeadLeast(a, b[0]);
      assert a[0] == b[0];
      SortedTail(a);
      SortedTail(b);
      assert multiset(a[1..]) == multiset(b[1..]);
      SortedUnique(a[1..], b[1..]);
      assert a == [a[0]] + a[1..];
      assert b == [b[0]] + b[1..];
    }
  }

  /** The median of an ascending list: the middle value, or the mean of the
      two middle values when the count is even. */
  function MedianOfSorted(s: seq<real>): real
    requires |s| > 0
  {
    var n := |s|;
    if n % 2 == 1 then s[n / 2] else (s[n / 2 - 1] + s[n / 2]) / 2.0
  }

  /** `np.median`. */
  function Median(xs: seq<real>): (m: real)
    requires |xs| > 0
  {
    var s := Sort(xs);
    assert |s| == |multiset(s)| == |multiset(xs)| == |xs|;
    MedianOfSorted(s)
  }

  /** The median depends only on the values, not on their order. */
  lemma MedianPermutation(a: seq<real>, b: seq<real>)
    requires |a| > 0 && multiset(a) == multiset(b)
    ensures |b| > 0 && Median(a) == Median(b)
  {
    assert |a| == |multiset(a)| == |multiset(b)| == |b|;
    SortedUnique(Sort(a), Sort(b));
  }

  /** The median of an ascending list is its own middle. */
  lemma MedianSorted(xs: seq<real>)
    requires |xs| > 0 && Sorted(xs)
    ensures Median(xs) == MedianOfSorted(xs)
  {
    SortedUnique(Sort(xs), xs);
  }

  /** The median lies between the least and the greatest value. */
  lemma MedianBounds(xs: seq<real>, lo: real, hi: real)
    requires |xs| > 0
    requires forall k :: 0 <= k < |xs| ==> lo <= xs[k] <= hi
    ensures lo <= Median(xs) <= hi
  {
    var s := Sort(xs);
    assert |s| == |multiset(s)| == |multiset(xs)| == |xs|;
    forall k | 0 <= k < |s| ensures lo <= s[k] <= hi {
      assert s[k] in multiset(xs);
    }
  }

  /** The median of [10, 20, 30, 100] is 25, the mean of 20 and 30. */
  lemma MedianExample()
    ensures Median([10.0, 20.0, 30.0, 100.0]) == 25.0
  {
    MedianSorted([10.0, 20.0, 30.0, 100.0]);
  }

  // ---------------------------------------------------------------------
  // calculate_brightness_score

  /** Python's `round(x)`: the nearest integer, ties to the even one. */
  function RoundHalfEven(x: real): (n: int)
    ensures -0.5 <= n as real - x <= 0.5
    ensures (n as real - x == 0.5 || n as real - x == -0.5) ==> n % 2 == 0
  {
    var f := x.Floor;
    var frac := x - f as real;
    if frac < 0.5 then f
    else if frac > 0.5 then f + 1
    else if f % 2 == 0 then f
    else f + 1
  }

  /** Rounding never reverses the order of two values. */
  lemma RoundMonotone(x: real, y: real)
    requires x <= y
    ensures RoundHalfEven(x) <= RoundHalfEven(y)
  {
  }

  /** `calculate_brightness_score`: the mean luminance as a percentage of
      255, rounded; a mean in [0, 255] gives a score in [0, 100]. */
  function BrightnessScore(averageLuminance: real): (score: int)
    ensures 0.0 <= averageLuminance <= LUMINANCE_MAX as real ==> 0 <= score <= 100
  {
    RoundHalfEven(averageLuminance / LUMINANCE_MAX as real * 100.0)
  }

  /** Black scores 0, white 100 and the midpoint 127.5 scores 50; the
      exact ties 0.5 and 1.5 round to the even 0 and 2. */
  lemma BrightnessScoreExamples()
    ensures BrightnessScore(0.0) == 0
    ensures BrightnessScore(255.0) == 100
    ensures BrightnessScore(127.5) == 50
    ensures BrightnessScore(1.275) == 0
    ensures BrightnessScore(3.825) == 2
  {
  }

  /** A brighter mean never scores lower. */
  lemma BrightnessScoreMonotone(a: real, b: real)
    requires a <= b
    ensures BrightnessScore(a) <= BrightnessScore(b)
  {
    RoundMonotone(a / 255.0 * 100.0, b / 255.0 * 100.0);
  }

  // ---------------------------------------------------------------------
  // calculate_edge_luminance

  /** Python's `s[i:j]`: negative bounds count from the end, and both are
      clamped to the list. */
  function PySlice<T>(s: seq<T>, i: int, j: int): (r: seq<T>)
    ensures forall x :: x in r ==> x in s
  {
    var n := |s|;
    var lo := if i < 0 then (if n + i < 0 then 0 else n + i) else (if i > n then n else i);
    var hi := if j < 0 then (if n + j < 0 then 0 else n + j) else (if j > n then n else j);
    if lo < hi then s[lo..hi] else []
  }

  /** The three slices the edge strips take, for a thickness `e` that fits:
      `s[:e]` is the first `e` elements, `s[-e:]` the last `e`, and
      `s[e:-e]` what lies between, empty when the two strips meet. */
  lemma PySliceEdges<T>(s: seq<T>, e: int)
    requires 0 < e <= |s|
    ensures PySlice(s, 0, e) == s[..e]
    ensures PySlice(s, -e, |s|) == s[|s| - e..]
    ensures PySlice(s, e, -e) == if 2 * e < |s| then s[e..|s| - e] else []
  {
  }

  /** `a[:, i:j]`: the same column slice of every row. */
  function Columns(rows: seq<seq<real>>, i: int, j: int): (r: seq<seq<real>>)
    ensures |r| == |rows|
    ensures forall k :: 0 <= k < |r| ==> r[k] == PySlice(rows[k], i, j)
  {
    seq(|rows|, k requires 0 <= k < |rows| => PySlice(rows[k], i, j))
  }

  /** `max(1, int(n * 0.1))`: the strip thickness for a side of length n. */
  function EdgeSize(n: nat): (e: nat)
    ensures e >= 1 && (n >= 1 ==> e <= n)
    ensures n >= 10 ==> e == n / 10
  {
    if n / 10 < 1 then 1 else n / 10
  }

  /** `a[:, i:]`. */
  function ColumnsFrom(rows: seq<seq<real>>, i: int): (r: seq<seq<real>>)
    ensures |r| == |rows|
    ensures forall k :: 0 <= k < |r| ==> r[k] == PySlice(rows[k], i, |rows[k]|)
  {
    seq(|rows|, k requires 0 <= k < |rows| => PySlice(rows[k], i, |rows[k]|))
  }

  /** The strips of each mode, as the source appends them. */
  function LeftRight(lum: seq<seq<real>>, ew: int): seq<seq<real>>
  {
    [Flatten(Columns(lum, 0, ew)), Flatten(ColumnsFrom(lum, -ew))]
  }

  function TopBottom(lum: seq<seq<real>>, eh: int): seq<seq<real>>
  {
    [Flatten(PySlice(lum, 0, eh)), Flatten(PySlice(lum, -eh, |lum|))]
  }

  /** `calculate_edge_luminance(luminance, edge_mode)`: the cells of the
      10% strips along the chosen edges, or `None` (the `ValueError`) for
      an unknown mode. */
  function CalculateEdgeLuminance(lum: seq<seq<real>>, edgeMode: string): (r: Option<seq<real>>)
    requires |lum| > 0
    ensures r.Some? <==> edgeMode in {"left_right", "top_bottom", "all"}
  {
    var height := |lum|;
    var width := |lum[0]|;
    var ew: int := EdgeSize(width);
    var eh: int := EdgeSize(height);
    if edgeMode == "left_right" then
      Some(Flatten(LeftRight(lum, ew)))
    else if edgeMode == "top_bottom" then
      Some(Flatten(TopBottom(lum, eh)))
    else if edgeMode == "all" then
      Some(Flatten(LeftRight(lum, ew) + [
        Flatten(Columns(PySlice(lum, 0, eh), ew, -ew)),
        Flatten(Columns(PySlice(lum, -eh, height), ew, -ew))]))
    else None
  }

  lemma Flatten2(x: seq<real>, y: seq<real>)
    ensures Flatten([x, y]) == x + y
  {
    assert [x, y][1..] == [y];
    assert [y][1..] == [];
    assert Flatten([y]) == y + Flatten([]) == y;
  }

  /** Each row contributes the same number of cells to a column strip. */
  lemma ColumnStripLength(rows: seq<seq<real>>, width: nat, i: int, j: int, len: nat)
    requires forall k :: 0 <= k < |rows| ==> |rows[k]| == width
    requires forall k :: 0 <= k < |rows| ==> |PySlice(rows[k], i, j)| == len
    ensures |Flatten(Columns(rows, i, j))| == |rows| * len
  {
    FlattenLength(Columns(rows, i, j), len);
  }

  lemma ColumnsFromLength(rows: seq<seq<real>>, width: nat, i: int, len: nat)
    requires forall k :: 0 <= k < |rows| ==> |rows[k]| == width
    requires forall k :: 0 <= k < |rows| ==> |PySlice(rows[k], i, |rows[k]|)| == len
    ensures |Flatten(ColumnsFrom(rows, i))| == |rows| * len
  {
    FlattenLength(ColumnsFrom(rows, i), len);
  }

  lemma TwiceProduct(a: int, b: int)
    ensures a * b + a * b == 2 * a * b
  {
  }

  /** The lengths of the three column slices the strips take from one row. */
  lemma RowSliceLengths(row: seq<real>, ew: int)
    requires 1 <= ew <= |row|
    ensures |PySlice(row, 0, ew)| == ew
    ensures |PySlice(row, -ew, |row|)| == ew
    ensures |PySlice(row, ew, -ew)| == if |row| - 2 * ew > 0 then |row| - 2 * ew else 0
  {
  }

  /** The left and right strips hold `ew` cells of each of the `height` rows. */
  lemma LeftRightLength(lum: seq<seq<real>>, height: nat, width: nat)
    requires IsGrid(lum, height, width) && height >= 1 && width >= 1
    ensures |Flatten(LeftRight(lum, EdgeSize(width)))| == 2 * height * EdgeSize(width)
  {
    var ew: int := EdgeSize(width);
    forall k | 0 <= k < |lum| ensures |PySlice(lum[k], 0, ew)| == ew && |PySlice(lum[k], -ew, |lum[k]|)| == ew {
      RowSliceLengths(lum[k], ew);
    }
    ColumnStripLength(lum, width, 0, ew, ew);
    ColumnsFromLength(lum, width, -ew, ew);
    Flatten2(Flatten(Columns(lum, 0, ew)), Flatten(ColumnsFrom(lum, -ew)));
    TwiceProduct(height, ew);
  }

  /** The top and bottom strips hold `eh` full rows each. */
  lemma TopBottomLength(lum: seq<seq<real>>, height: nat, width: nat)
    requires IsGrid(lum, height, width) && height >= 1
    ensures |Flatten(TopBottom(lum, EdgeSize(height)))| == 2 * EdgeSize(height) * width
  {
    var eh: int := EdgeSize(height);
    assert PySlice(lum, 0, eh) == lum[..eh];
    assert PySlice(lum, -eh, height) == lum[height - eh..];
    FlattenLength(lum[..eh], width);
    FlattenLength(lum[height - eh..], width);
    Flatten2(Flatten(PySlice(lum, 0, eh)), Flatten(PySlice(lum, -eh, height)));
    TwiceProduct(eh, width);
  }

  /** The top and bottom strips of mode "all" keep only the columns between
      the left and right strips. */
  lemma InnerStripLength(lum: seq<seq<real>>, width: nat, first: nat, last: nat)
    requires forall k :: 0 <= k < |lum| ==> |lum[k]| == width
    requires first <= last <= |lum| && width >= 1
    ensures var ew: int := EdgeSize(width);
            |Flatten(Columns(lum[first..last], ew, -ew))| ==
            (last - first) * (if width - 2 * ew > 0 then width - 2 * ew else 0)
  {
    var ew: int := EdgeSize(width);
    var len := if width - 2 * ew > 0 then width - 2 * ew else 0;
    var rows := lum[first..last];
    forall k | 0 <= k < |rows| ensures |PySlice(rows[k], ew, -ew)| == len {
      RowSliceLengths(rows[k], ew);
    }
    ColumnStripLength(rows, width, ew, -ew, len);
  }

  lemma StripsTotal(total: int, sides: int, t: int, b: int, height: int, ew: int, eh: int, inner: int)
    requires total == sides + t + b && sides == 2 * height * ew && t == eh * inner && b == eh * inner
    ensures total == 2 * height * ew + 2 * eh * inner
  {
    TwiceProduct(eh, inner);
  }

  /** Two strips appended to some rows add their own lengths. */
  lemma StripsLength(rows: seq<seq<real>>, top: seq<real>, bottom: seq<real>)
    ensures |Flatten(rows + [top, bottom])| == |Flatten(rows)| + |top| + |bottom|
  {
    FlattenConcat(rows, [top, bottom]);
    Flatten2(top, bottom);
  }

  /** Mode "all" takes the left and right strips, then the top and bottom
      strips without the columns those already hold. */
  lemma AllLength(lum: seq<seq<real>>, height: nat, width: nat)
    requires IsGrid(lum, height, width) && height >= 1 && width >= 1
    ensures var ew := EdgeSize(width);
            var eh := EdgeSize(height);
            |CalculateEdgeLuminance(lum, "all").value| ==
            2 * height * ew + 2 * eh * (if width - 2 * ew > 0 then width - 2 * ew else 0)
  {
    var ew: int := EdgeSize(width);
    var eh: int := EdgeSize(height);
    var inner := if width - 2 * ew > 0 then width - 2 * ew else 0;
    var top := Flatten(Columns(PySlice(lum, 0, eh), ew, -ew));
    var bottom := Flatten(Columns(PySlice(lum, -eh, height), ew, -ew));
    assert |top| == eh * inner by {
      assert PySlice(lum, 0, eh) == lum[0..eh];
      InnerStripLength(lum, width, 0, eh);
    }
    assert |bottom| == eh * inner by {
      assert PySlice(lum, -eh, height) == lum[height - eh..height];
      InnerStripLength(lum, width, height - eh, height);
    }
    var sides := |Flatten(LeftRight(lum, ew))|;
    assert sides == 2 * height * ew by {
      LeftRightLength(lum, height, width);
    }
    var total := |CalculateEdgeLuminance(lum, "all").value|;
    assert total == sides + |top| + |bottom| by {
      StripsLength(LeftRight(lum, ew), top, bottom);
    }
    StripsTotal(total, sides, |top|, |bottom|, height, ew, eh, inner);
  }

  /** The number of cells each mode extracts from a `height` x `width` grid;
      mode "all" counts no corner twice: the top and bottom strips skip the
      columns that the left and right strips already hold. */
  lemma EdgeCellCount(lum: seq<seq<real>>, height: nat, width: nat)
    requires IsGrid(lum, height, width) && height >= 1 && width >= 1
    ensures var ew := EdgeSize(width);
            var eh := EdgeSize(height);
            && |CalculateEdgeLuminance(lum, "left_right").value| == 2 * height * ew
            && |CalculateEdgeLuminance(lum, "top_bottom").value| == 2 * eh * width
            && |CalculateEdgeLuminance(lum, "all").value| ==
               2 * height * ew + 2 * eh * (if width - 2 * ew > 0 then width - 2 * ew else 0)
  {
    LeftRightLength(lum, height, width);
    TopBottomLength(lum, height, width);
    AllLength(lum, height, width);
  }

  /** Every cell of `rows` lies in [lo, hi]. */
  predicate Bounded(rows: seq<seq<real>>, lo: real, hi: real)
  {
    forall i, j :: 0 <= i < |rows| && 0 <= j < |rows[i]| ==> lo <= rows[i][j] <= hi
  }

  lemma FlattenBounded(rows: seq<seq<real>>, lo: real, hi: real)
    requires Bounded(rows, lo, hi)
    ensures forall k :: 0 <= k < |Flatten(rows)| ==> lo <= Flatten(rows)[k] <= hi
  {
    forall k | 0 <= k < |Flatten(rows)| ensures lo <= Flatten(rows)[k] <= hi {
      FlattenMember(rows, Flatten(rows)[k]);
    }
  }

  lemma ColumnsBounded(rows: seq<seq<real>>, i: int, j: int, lo: real, hi: real)
    requires Bounded(rows, lo, hi)
    ensures Bounded(Columns(rows, i, j), lo, hi) && Bounded(ColumnsFrom(rows, i), lo, hi)
  {
    forall k, m | 0 <= k < |rows| && 0 <= m < |Columns(rows, i, j)[k]|
      ensures lo <= Columns(rows, i, j)[k][m] <= hi
    {
      assert Columns(rows, i, j)[k][m] in rows[k];
    }
    forall k, m | 0 <= k < |rows| && 0 <= m < |ColumnsFrom(rows, i)[k]|
      ensures lo <= ColumnsFrom(rows, i)[k][m] <= hi
    {
      assert ColumnsFrom(rows, i)[k][m] in rows[k];
    }
  }

  lemma RowsBounded(rows: seq<seq<real>>, i: int, j: int, lo: real, hi: real)
    requires Bounded(rows, lo, hi)
    ensures Bounded(PySlice(rows, i, j), lo, hi)
  {
    forall k, m | 0 <= k < |PySlice(rows, i, j)| && 0 <= m < |PySlice(rows, i, j)[k]|
      ensures lo <= PySlice(rows, i, j)[k][m] <= hi
    {
      var row := PySlice(rows, i, j)[k];
      assert row in rows;
    }
  }

  lemma LeftRightBounded(lum: seq<seq<real>>, ew: int, lo: real, hi: real)
    requires Bounded(lum, lo, hi)
    ensures forall k :: 0 <= k < |Flatten(LeftRight(lum, ew))| ==> lo <= Flatten(LeftRight(lum, ew))[k] <= hi
  {
    ColumnsBounded(lum, 0, ew, lo, hi);
    ColumnsBounded(lum, -ew, 0, lo, hi);
    FlattenBounded(Columns(lum, 0, ew), lo, hi);
    FlattenBounded(ColumnsFrom(lum, -ew), lo, hi);
    FlattenBounded(LeftRight(lum, ew), lo, hi);
  }

  lemma TopBottomBounded(lum: seq<seq<real>>, eh: int, lo: real, hi: real)
    requires Bounded(lum, lo, hi)
    ensures forall k :: 0 <= k < |Flatten(TopBottom(lum, eh))| ==> lo <= Flatten(TopBottom(lum, eh))[k] <= hi
  {
    RowsBounded(lum, 0, eh, lo, hi);
    RowsBounded(lum, -eh, |lum|, lo, hi);
    FlattenBounded(PySlice(lum, 0, eh), lo, hi);
    FlattenBounded(PySlice(lum, -eh, |lum|), lo, hi);
    FlattenBounded(TopBottom(lum, eh), lo, hi);
  }

  /** A strip of rows `i:j` restricted to the columns `ew:-ew`. */
  lemma InnerBounded(lum: seq<seq<real>>, i: int, j: int, ew: int, lo: real, hi: real)
    requires Bounded(lum, lo, hi)
    ensures Bounded([Flatten(Columns(PySlice(lum, i, j), ew, -ew))], lo, hi)
  {
    var rows := PySlice(lum, i, j);
    RowsBounded(lum, i, j, lo, hi);
    var strip := Columns(rows, ew, -ew);
    ColumnsBounded(rows, ew, -ew, lo, hi);
    FlattenBounded(strip, lo, hi);
    SingletonBounded(Flatten(strip), lo, hi);
  }

  lemma SingletonBounded(x: seq<real>, lo: real, hi: real)
    requires forall k :: 0 <= k < |x| ==> lo <= x[k] <= hi
    ensures Bounded([x], lo, hi)
  {
  }

  lemma BoundedConcat(a: seq<seq<real>>, b: seq<seq<real>>, lo: real, hi: real)
    requires Bounded(a, lo, hi) && Bounded(b, lo, hi)
    ensures Bounded(a + b, lo, hi)
  {
    forall i, j | 0 <= i < |a + b| && 0 <= j < |(a + b)[i]| ensures lo <= (a + b)[i][j] <= hi {
      if i >= |a| {
        assert (a + b)[i] == b[i - |a|];
      }
    }
  }

  /** The left and right strips, as rows. */
  lemma LeftRightRowsBounded(lum: seq<seq<real>>, ew: int, lo: real, hi: real)
    requires Bounded(lum, lo, hi)
    ensures Bounded(LeftRight(lum, ew), lo, hi)
  {
    ColumnsBounded(lum, 0, ew, lo, hi);
    ColumnsBounded(lum, -ew, 0, lo, hi);
    FlattenBounded(Columns(lum, 0, ew), lo, hi);
    FlattenBounded(ColumnsFrom(lum, -ew), lo, hi);
    var left := Flatten(Columns(lum, 0, ew));
    var right := Flatten(ColumnsFrom(lum, -ew));
    SingletonBounded(left, lo, hi);
    SingletonBounded(right, lo, hi);
    BoundedConcat([left], [right], lo, hi);
    assert LeftRight(lum, ew) == [left] + [right];
  }

  /** Two more strips appended to bounded rows keep every cell bounded. */
  lemma StripsBounded(rows: seq<seq<real>>, top: seq<real>, bottom: seq<real>, lo: real, hi: real)
    requires Bounded(rows, lo, hi) && Bounded([top], lo, hi) && Bounded([bottom], lo, hi)
    ensures forall k :: 0 <= k < |Flatten(rows + [top, bottom])| ==>
              lo <= Flatten(rows + [top, bottom])[k] <= hi
  {
    var three := rows + [top];
    BoundedConcat(rows, [top], lo, hi);
    var four := three + [bottom];
    BoundedConcat(three, [bottom], lo, hi);
    assert rows + [top, bottom] == four;
    FlattenBounded(four, lo, hi);
  }

  /** The cells of the "all" mode: both side strips and the inner parts of
      the top and bottom strips. */
  lemma AllStripsBounded(lum: seq<seq<real>>, ew: int, eh: int, lo: real, hi: real)
    requires Bounded(lum, lo, hi)
    ensures var e := Flatten(LeftRight(lum, ew) + [
              Flatten(Columns(PySlice(lum, 0, eh), ew, -ew)),
              Flatten(Columns(PySlice(lum, -eh, |lum|), ew, -ew))]);
            forall k :: 0 <= k < |e| ==> lo <= e[k] <= hi
  {
    var rows := LeftRight(lum, ew);
    var top := Flatten(Columns(PySlice(lum, 0, eh), ew, -ew));
    var bottom := Flatten(Columns(PySlice(lum, -eh, |lum|), ew, -ew));
    assert Bounded(rows, lo, hi) by { LeftRightRowsBounded(lum, ew, lo, hi); }
    assert Bounded([top], lo, hi) by { InnerBounded(lum, 0, eh, ew, lo, hi); }
    assert Bounded([bottom], lo, hi) by { InnerBounded(lum, -eh, |lum|, ew, lo, hi); }
    StripsBounded(rows, top, bottom, lo, hi);
  }

  /** The extracted cells are cells of the grid, so any bound on the grid
      bounds them too. */
  lemma EdgeBounded(lum: seq<seq<real>>, edgeMode: string, lo: real, hi: real)
    requires |lum| > 0 && Bounded(lum, lo, hi)
    requires CalculateEdgeLuminance(lum, edgeMode).Some?
    ensures var e := CalculateEdgeLuminance(lum, edgeMode).value;
            forall k :: 0 <= k < |e| ==> lo <= e[k] <= hi
  {
    var ew: int := EdgeSize(|lum[0]|);
    var eh: int := EdgeSize(|lum|);
    var e := CalculateEdgeLuminance(lum, edgeMode).value;
    if edgeMode == "left_right" {
      assert e == Flatten(LeftRight(lum, ew));
      LeftRightBounded(lum, ew, lo, hi);
    } else if edgeMode == "top_bottom" {
      assert e == Flatten(TopBottom(lum, eh));
      TopBottomBounded(lum, eh, lo, hi);
    } else {
      assert e == Flatten(LeftRight(lum, ew) + [
        Flatten(Columns(PySlice(lum, 0, eh), ew, -ew)),
        Flatten(Columns(PySlice(lum, -eh, |lum|), ew, -ew))]);
      AllStripsBounded(lum, ew, eh, lo, hi);
    }
  }

  /** On a grid of one value every strip holds only that value, so the edge
      score equals the overall score. */
  lemma UniformEdgeScore(lum: seq<seq<real>>, height: nat, width: nat, v: real, edgeMode: string)
    requires IsGrid(lum, height, width) && height >= 1 && width >= 1
    requires Bounded(lum, v, v)
    requires edgeMode in {"left_right", "top_bottom", "all"}
    ensures var e := CalculateEdgeLuminance(lum, edgeMode).value;
            && |e| > 0 && |Flatten(lum)| > 0
            && Mean(e) == v
            && BrightnessScore(Mean(e)) == BrightnessScore(Mean(Flatten(lum)))
  {
    var e := CalculateEdgeLuminance(lum, edgeMode).value;
    EdgeCellCount(lum, height, width);
    assert |e| > 0;
    FlattenLength(lum, width);
    EdgeBounded(lum, edgeMode, v, v);
    MeanConstant(e, v);
    FlattenBounded(lum, v, v);
    MeanConstant(Flatten(lum), v);
  }

  /** Every edge mode extracts at least one cell of a non-empty grid. */
  lemma EdgesNonEmpty(lum: seq<seq<real>>, height: nat, width: nat)
    requires IsGrid(lum, height, width) && height >= 1 && width >= 1
    ensures forall mode :: mode in {"left_right", "top_bottom", "all"} ==>
              CalculateEdgeLuminance(lum, mode).Some? && |CalculateEdgeLuminance(lum, mode).value| > 0
  {
    EdgeCellCount(lum, height, width);
    PositiveProduct(height, EdgeSize(width));
    PositiveProduct(EdgeSize(height), width);
  }

  lemma PositiveProduct(a: nat, b: nat)
    requires a >= 1 && b >= 1
    ensures 2 * a * b >= 2
  {
  }
}
