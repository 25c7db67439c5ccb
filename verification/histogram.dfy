/** `calculate_histogram` of `app/core/histogram.py`: ten labelled buckets
    over the luminance range and the share of cells each one counts. */
module Histogram {
  import opened Config
  import opened Strings
  import opened Luminance

  /** One `HistogramBucket`: its label `"start-end"` and its percentage. */
  datatype HistogramBucket = HistogramBucket(range: string, percent: real)

  /** `(max_val + 1) / num_buckets`, that is 25.6. */
  const BUCKET_SIZE: real := (LUMINANCE_MAX + 1) as real / HISTOGRAM_BUCKETS as real

  /** `int(i * bucket_size)`. */
  function BucketStart(i: nat): nat
  {
    (i as real * BUCKET_SIZE).Floor
  }

  /** `int((i + 1) * bucket_size) - 1`, or `max_val` for the last bucket. */
  function BucketEnd(i: nat): int
  {
    if i == HISTOGRAM_BUCKETS - 1 then LUMINANCE_MAX
    else ((i + 1) as real * BUCKET_SIZE).Floor - 1
  }

  /** Counted by a closed interval `[lo, hi]` or a half-open `[lo, hi)`. */
  predicate Within(v: real, lo: real, hi: real, closed: bool)
  {
    lo <= v && (if closed then v <= hi else v < hi)
  }

  /** The vectorised `np.sum((flat >= lo) & (flat <= hi))` (closed) or
      `np.sum((flat >= lo) & (flat < hi))`. */
  function CountWithin(xs: seq<real>, lo: real, hi: real, closed: bool): (n: nat)
    ensures n <= |xs|
  {
    if xs == [] then 0
    else (if Within(xs[0], lo, hi, closed) then 1 else 0) + CountWithin(xs[1..], lo, hi, closed)
  }

  /** The interval bucket `i` counts, as the source compares: the last one
      is `[start, 255]`, the others `[start, (i + 1) * bucket_size)`. */
  predicate InBucket(v: real, i: nat)
  {
    if i == HISTOGRAM_BUCKETS - 1 then Within(v, BucketStart(i) as real, BucketEnd(i) as real, true)
    else Within(v, BucketStart(i) as real, (i + 1) as real * BUCKET_SIZE, false)
  }

  function Count(xs: seq<real>, i: nat): (n: nat)
    ensures n <= |xs|
  {
    if i == HISTOGRAM_BUCKETS - 1 then CountWithin(xs, BucketStart(i) as real, BucketEnd(i) as real, true)
    else CountWithin(xs, BucketStart(i) as real, (i + 1) as real * BUCKET_SIZE, false)
  }

  /** `round(x, 1)` on an exact real: the nearest tenth, ties to even. */
  function RoundTo1(x: real): (r: real)
    ensures -0.05 <= r - x <= 0.05
    ensures 0.0 <= x <= 100.0 ==> 0.0 <= r <= 100.0
  {
    RoundHalfEven(x * 10.0) as real / 10.0
  }

  /** `round((count / total_pixels) * 100, 1)`. */
  function Percent(count: nat, total: nat): (p: real)
    requires 0 < total && count <= total
    ensures 0.0 <= p <= 100.0
  {
    var share := count as real / total as real;
    assert 0.0 <= share <= 1.0;
    assert 0.0 <= share * 100.0 <= 100.0;
    RoundTo1(share * 100.0)
  }

  /** `f"{start}-{end}"`. */
  function Label(start: nat, end: nat): string
  {
    NatToString(start) + "-" + NatToString(end)
  }

  /** What the loop appends for bucket `i` of the flattened cells. */
  function Bucket(flat: seq<real>, i: nat): (b: HistogramBucket)
    requires |flat| > 0 && BucketEnd(i) >= 0
    ensures 0.0 <= b.percent <= 100.0
  {
    HistogramBucket(Label(BucketStart(i), BucketEnd(i)), Percent(Count(flat, i), |flat|))
  }

  /** The concrete bucket boundaries: `floor(i * 25.6)` and one less than the
      next start, with the last end forced to 255. */
  lemma BucketBounds()
    ensures BucketStart(0) == 0 && BucketEnd(0) == 24
    ensures BucketStart(1) == 25 && BucketEnd(1) == 50
    ensures BucketStart(2) == 51 && BucketEnd(2) == 75
    ensures BucketStart(3) == 76 && BucketEnd(3) == 101
    ensures BucketStart(4) == 102 && BucketEnd(4) == 127
    ensures BucketStart(5) == 128 && BucketEnd(5) == 152
    ensures BucketStart(6) == 153 && BucketEnd(6) == 178
    ensures BucketStart(7) == 179 && BucketEnd(7) == 203
    ensures BucketStart(8) == 204 && BucketEnd(8) == 229
    ensures BucketStart(9) == 230 && BucketEnd(9) == 255
  {
  }

  /** Bucket `i` starts at `floor(i * 256 / 10)`, and the labels tile 0-255:
      each bucket ends one before the next one starts. */
  lemma BucketsTile(i: nat)
    requires i < HISTOGRAM_BUCKETS
    ensures BucketStart(i) == i * 256 / 10
    ensures i + 1 < HISTOGRAM_BUCKETS ==> BucketEnd(i) + 1 == BucketStart(i + 1)
    ensures BucketStart(0) == 0 && BucketEnd(HISTOGRAM_BUCKETS - 1) == LUMINANCE_MAX
  {
    BucketBounds();
  }

  lemma LabelExamples()
    ensures Label(BucketStart(0), BucketEnd(0)) == "0-24"
    ensures Label(BucketStart(5), BucketEnd(5)) == "128-152"
    ensures Label(BucketStart(9), BucketEnd(9)) == "230-255"
  {
    BucketBounds();
  }

  /** No bucket ends below 0, so every label is two natural numbers. */
  lemma BucketEndNatural(i: nat)
    ensures BucketEnd(i) >= 0
  {
    if i != HISTOGRAM_BUCKETS - 1 {
      assert (i + 1) as real * BUCKET_SIZE >= 1.0;
    }
  }

  /** One pass of the loop of `calculate_histogram`: the bounds, the count
      and the rounded share of bucket `i`. */
  method ComputeBucket(flat: seq<real>, i: nat, bucketSize: real) returns (bucket: HistogramBucket)
    requires |flat| > 0 && i < HISTOGRAM_BUCKETS && bucketSize == BUCKET_SIZE
    ensures BucketEnd(i) >= 0 && bucket == Bucket(flat, i)
  {
    var maxVal := LUMINANCE_MAX;
    var start := (i as real * bucketSize).Floor;
    var end := ((i + 1) as real * bucketSize).Floor - 1;
    var count;
    if i == HISTOGRAM_BUCKETS - 1 {
      end := maxVal;
      count := CountWithin(flat, start as real, end as real, true);
    } else {
      count := CountWithin(flat, start as real, (i + 1) as real * bucketSize, false);
    }
    assert start == BucketStart(i) && end == BucketEnd(i) && count == Count(flat, i);
    BucketEndNatural(i);
    var percent := Percent(count, |flat|);
    bucket := HistogramBucket(Label(start, end), percent);
  }

  /** `calculate_histogram(luminance)`: no buckets for an empty grid,
      otherwise the ten buckets in order. */
  method CalculateHistogram(luminance: seq<seq<real>>) returns (histogram: seq<HistogramBucket>)
    ensures var flat := Flatten(luminance);
            && (|flat| == 0 ==> histogram == [])
            && (|flat| > 0 ==> |histogram| == HISTOGRAM_BUCKETS)
            && (|flat| > 0 ==> forall k :: 0 <= k < |histogram| ==> BucketEnd(k) >= 0 && histogram[k] == Bucket(flat, k))
  {
    var numBuckets := HISTOGRAM_BUCKETS;
    var maxVal := LUMINANCE_MAX;
    var bucketSize := (maxVal + 1) as real / numBuckets as real;
    var flat := Flatten(luminance);
    var total := |flat|;
    if total == 0 {
      return [];
    }
    histogram := [];
    for i := 0 to numBuckets
      invariant |histogram| == i
      invariant forall k :: 0 <= k < i ==> BucketEnd(k) >= 0 && histogram[k] == Bucket(flat, k)
    {
      var bucket := ComputeBucket(flat, i, bucketSize);
      histogram := histogram + [bucket];
    }
  }

  // ---------------------------------------------------------------------
  // What the counts say

  lemma CountAll(xs: seq<real>, lo: real, hi: real, closed: bool)
    requires forall k :: 0 <= k < |xs| ==> Within(xs[k], lo, hi, closed)
    ensures CountWithin(xs, lo, hi, closed) == |xs|
  {
    if xs != [] {
      CountAll(xs[1..], lo, hi, closed);
    }
  }

  lemma CountNone(xs: seq<real>, lo: real, hi: real, closed: bool)
    requires forall k :: 0 <= k < |xs| ==> !Within(xs[k], lo, hi, closed)
    ensures CountWithin(xs, lo, hi, closed) == 0
  {
    if xs != [] {
      CountNone(xs[1..], lo, hi, closed);
    }
  }

  /** A bucket that holds every cell reports 100%, one that holds none 0%. */
  lemma UniformBucket(flat: seq<real>, v: real, i: nat)
    requires |flat| > 0 && i < HISTOGRAM_BUCKETS
    requires forall k :: 0 <= k < |flat| ==> flat[k] == v
    ensures BucketEnd(i) >= 0
    ensures Bucket(flat, i).percent == if InBucket(v, i) then 100.0 else 0.0
  {
    BucketEndNatural(i);
    var lo := BucketStart(i) as real;
    var hi := if i == HISTOGRAM_BUCKETS - 1 then BucketEnd(i) as real else (i + 1) as real * BUCKET_SIZE;
    var closed := i == HISTOGRAM_BUCKETS - 1;
    assert Count(flat, i) == CountWithin(flat, lo, hi, closed);
    assert forall k :: 0 <= k < |flat| ==> (Within(flat[k], lo, hi, closed) <==> InBucket(v, i));
    if InBucket(v, i) {
      CountAll(flat, lo, hi, closed);
      PercentExtremes(|flat|);
    } else {
      CountNone(flat, lo, hi, closed);
      PercentExtremes(|flat|);
    }
  }

  lemma PercentExtremes(total: nat)
    requires total > 0
    ensures Percent(total, total) == 100.0 && Percent(0, total) == 0.0
  {
    assert total as real / total as real == 1.0;
    assert RoundHalfEven(1000.0) == 1000;
    assert RoundHalfEven(0.0) == 0;
  }

  /** Every cell at 128 puts 100% in bucket "128-152" and 0% elsewhere. */
  lemma Uniform128(flat: seq<real>, i: nat)
    requires |flat| > 0 && i < HISTOGRAM_BUCKETS
    requires forall k :: 0 <= k < |flat| ==> flat[k] == 128.0
    ensures BucketEnd(i) >= 0
    ensures Bucket(flat, i).percent == if i == 5 then 100.0 else 0.0
  {
    BucketBounds();
    UniformBucket(flat, 128.0, i);
  }

  /** Every level from 0 to 255 is counted by some bucket. */
  lemma LevelCounted(v: real)
    requires 0.0 <= v <= LUMINANCE_MAX as real
    ensures exists i :: 0 <= i < HISTOGRAM_BUCKETS && InBucket(v, i)
  {
    var i := (v / BUCKET_SIZE).Floor;
    if i >= 9 {
      BucketBounds();
      assert InBucket(v, 9);
    } else {
      assert i as real <= v / BUCKET_SIZE < (i + 1) as real;
      assert i as real * BUCKET_SIZE <= v < (i + 1) as real * BUCKET_SIZE;
      assert InBucket(v, i);
    }
  }

  /** The counting intervals overlap: the grey level 25.0 is counted both by
      bucket "0-24" and by bucket "25-50". */
  lemma GreyTwentyFiveCountedTwice()
    ensures InBucket(25.0, 0) && InBucket(25.0, 1)
  {
    BucketBounds();
  }

  /** So a grid of grey level 25 reports 100% in each of the first two
      buckets: the percentages add up to 200. */
  lemma UniformTwentyFive(flat: seq<real>)
    requires |flat| > 0
    requires forall k :: 0 <= k < |flat| ==> flat[k] == 25.0
    ensures BucketEnd(0) >= 0 && BucketEnd(1) >= 0
    ensures Bucket(flat, 0).percent == 100.0 && Bucket(flat, 1).percent == 100.0
  {
    GreyTwentyFiveCountedTwice();
    UniformBucket(flat, 25.0, 0);
    UniformBucket(flat, 25.0, 1);
  }

  // ---------------------------------------------------------------------
  // The counting rule the labels describe

  /** Bucket `i` counts `[start_i, start_(i+1))`, the last one `[230, 255]`:
      the intervals the labels name, without overlap. */
  predicate InBucketFixed(v: real, i: nat)
  {
    if i == HISTOGRAM_BUCKETS - 1 then Within(v, BucketStart(i) as real, LUMINANCE_MAX as real, true)
    else Within(v, BucketStart(i) as real, BucketStart(i + 1) as real, false)
  }

  function CountFixed(xs: seq<real>, i: nat): nat
  {
    if i == HISTOGRAM_BUCKETS - 1 then CountWithin(xs, BucketStart(i) as real, LUMINANCE_MAX as real, true)
    else CountWithin(xs, BucketStart(i) as real, BucketStart(i + 1) as real, false)
  }

  /** The counts of buckets `from` to 9. */
  function CountsFrom(xs: seq<real>, from: nat): nat
    decreases HISTOGRAM_BUCKETS - from
  {
    if from >= HISTOGRAM_BUCKETS then 0 else CountFixed(xs, from) + CountsFrom(xs, from + 1)
  }

  /** How many of buckets `from` to 9 count `v`. */
  function Hits(v: real, from: nat): nat
    decreases HISTOGRAM_BUCKETS - from
  {
    if from >= HISTOGRAM_BUCKETS then 0 else (if InBucketFixed(v, from) then 1 else 0) + Hits(v, from + 1)
  }

  lemma StartsAscend(i: nat)
    ensures BucketStart(i) <= BucketStart(i + 1)
  {
    assert i as real * BUCKET_SIZE <= (i + 1) as real * BUCKET_SIZE;
  }

  /** A level in [0, 255] is counted by one of buckets `from`..9 exactly
      when it is at least `start_from`. */
  lemma {:induction false} HitsFrom(v: real, from: nat)
    requires 0.0 <= v <= LUMINANCE_MAX as real && from < HISTOGRAM_BUCKETS
    ensures Hits(v, from) == if BucketStart(from) as real <= v then 1 else 0
    decreases HISTOGRAM_BUCKETS - from
  {
    if from < HISTOGRAM_BUCKETS - 1 {
      HitsFrom(v, from + 1);
      StartsAscend(from);
    }
  }

  lemma CountsFromCons(x: real, xs: seq<real>, from: nat)
    ensures CountsFrom([x] + xs, from) == Hits(x, from) + CountsFrom(xs, from)
    decreases HISTOGRAM_BUCKETS - from
  {
    assert ([x] + xs)[1..] == xs;
    if from < HISTOGRAM_BUCKETS {
      CountsFromCons(x, xs, from + 1);
    }
  }

  /** With the corrected rule every level lies in exactly one bucket, so the
      counts add up to the number of cells. */
  lemma {:induction false} FixedCountsPartition(xs: seq<real>)
    requires forall k :: 0 <= k < |xs| ==> 0.0 <= xs[k] <= LUMINANCE_MAX as real
    ensures CountsFrom(xs, 0) == |xs|
  {
    if xs == [] {
      assert CountsFrom(xs, 0) == 0 by {
        forall i: nat | i < HISTOGRAM_BUCKETS ensures CountFixed(xs, i) == 0 { }
        ZeroCounts(xs, 0);
      }
    } else {
      FixedCountsPartition(xs[1..]);
      HitsFrom(xs[0], 0);
      assert xs == [xs[0]] + xs[1..];
      CountsFromCons(xs[0], xs[1..], 0);
    }
  }

  lemma {:induction false} ZeroCounts(xs: seq<real>, from: nat)
    requires xs == []
    ensures CountsFrom(xs, from) == 0
    decreases HISTOGRAM_BUCKETS - from
  {
    if from < HISTOGRAM_BUCKETS {
      ZeroCounts(xs, from + 1);
    }
  }

  /** For a whole grey level the corrected rule counts it in exactly the
      bucket whose label range holds it. */
  lemma FixedMatchesLabels(n: int, i: nat)
    requires 0 <= n <= LUMINANCE_MAX && i < HISTOGRAM_BUCKETS
    ensures InBucketFixed(n as real, i) <==> BucketStart(i) <= n <= BucketEnd(i)
  {
    BucketBounds();
  }
}
