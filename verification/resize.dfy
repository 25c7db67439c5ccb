/** The dimension arithmetic of `resize_image_if_needed` in
    `app/core/resize.py`. The LANCZOS resample itself is a library call; the
    model decides only whether to resample and to which size. */
module Resize {
  import opened Config

  /** Keep the image as it is, or resample it to `width` x `height`. */
  datatype ResizeDecision = Keep | ResizeTo(width: nat, height: nat)

  /** `max(1, n)`. */
  function AtLeastOne(n: int): (r: nat)
    ensures r >= 1 && r >= n && (n >= 1 ==> r == n)
  {
    if n < 1 then 1 else n
  }

  /** `int(side * (max_dim / longer))` on exact reals: the scaled side
      rounded down. The float product can fall just below an integer, so
      where `side * 512 / longer` is a whole number the source may get one
      less than this. */
  function Scaled(side: nat, longer: nat): (s: nat)
    requires longer > 0
    ensures s * longer <= side * MAX_DIMENSION < (s + 1) * longer
  {
    side * MAX_DIMENSION / longer
  }

  lemma CancelFactor(a: int, b: int, c: int)
    requires c > 0 && a * c <= b * c
    ensures a <= b
  {
    assert (a - b) * c == a * c - b * c;
  }

  lemma CancelStrict(a: int, b: int, c: int)
    requires c > 0 && a * c < b * c
    ensures a < b
  {
    assert (b - a) * c == b * c - a * c;
  }

  /** The shorter side never scales past the limit. */
  lemma ScaledAtMost(side: nat, longer: nat)
    requires 0 < longer && side <= longer
    ensures Scaled(side, longer) <= MAX_DIMENSION
  {
    var s := Scaled(side, longer);
    assert side * MAX_DIMENSION <= longer * MAX_DIMENSION;
    CancelFactor(s, MAX_DIMENSION, longer);
  }

  /** `resize_image_if_needed` on an image of `width` x `height`. */
  function ResizeImageIfNeeded(width: nat, height: nat): (d: ResizeDecision)
    ensures d == Keep <==> width <= MAX_DIMENSION && height <= MAX_DIMENSION
    ensures d.ResizeTo? ==> 1 <= d.width <= MAX_DIMENSION && 1 <= d.height <= MAX_DIMENSION
    ensures d.ResizeTo? && width > height ==>
              d.width == MAX_DIMENSION &&
              ((d.height == 1 && height * MAX_DIMENSION < width) ||
               d.height * width <= height * MAX_DIMENSION < (d.height + 1) * width)
    ensures d.ResizeTo? && width <= height ==>
              d.height == MAX_DIMENSION &&
              ((d.width == 1 && width * MAX_DIMENSION < height) ||
               d.width * height <= width * MAX_DIMENSION < (d.width + 1) * height)
  {
    var maxDim := MAX_DIMENSION;
    if width <= maxDim && height <= maxDim then Keep
    else if width > height then
      ScaledAtMost(height, width);
      ResizeTo(AtLeastOne(maxDim), AtLeastOne(Scaled(height, width)))
    else
      ScaledAtMost(width, height);
      ResizeTo(AtLeastOne(Scaled(width, height)), AtLeastOne(maxDim))
  }

  /** The aspect ratio survives up to rounding: the cross products of the
      old and the new size differ by less than the longer old side. */
  lemma AspectPreserved(width: nat, height: nat)
    requires width >= 1 && height >= 1 && ResizeImageIfNeeded(width, height).ResizeTo?
    ensures var d := ResizeImageIfNeeded(width, height);
            var longer := if width > height then width else height;
            -longer < d.width * height - d.height * width < longer
  {
    var d := ResizeImageIfNeeded(width, height);
    if width > height {
      var s := Scaled(height, width);
      if s == 0 {
        assert height * MAX_DIMENSION < width;
        assert d.width * height == height * MAX_DIMENSION;
        assert d.height * width == width;
      } else {
        assert d.height == s;
      }
    } else {
      var s := Scaled(width, height);
      if s == 0 {
        assert width * MAX_DIMENSION < height;
        assert d.height * width == width * MAX_DIMENSION;
        assert d.width * height == height;
      } else {
        assert d.width == s;
      }
    }
  }

  /** The sizes the source's tests name: 1000x500 becomes 512x256, 500x1000
      becomes 256x512, 800x600 becomes 512x384 (the same 4:3), and 512x512
      and 100x100 are kept. */
  lemma ResizeExamples()
    ensures ResizeImageIfNeeded(1000, 500) == ResizeTo(512, 256)
    ensures ResizeImageIfNeeded(500, 1000) == ResizeTo(256, 512)
    ensures ResizeImageIfNeeded(800, 600) == ResizeTo(512, 384)
    ensures ResizeImageIfNeeded(512, 512) == Keep
    ensures ResizeImageIfNeeded(100, 100) == Keep
  {
  }

  /** A square larger than the limit becomes 512x512. */
  lemma SquareResize(side: nat)
    requires side > MAX_DIMENSION
    ensures ResizeImageIfNeeded(side, side) == ResizeTo(MAX_DIMENSION, MAX_DIMENSION)
  {
    var s := Scaled(side, side);
    assert s * side <= MAX_DIMENSION * side;
    CancelFactor(s, MAX_DIMENSION, side);
    assert MAX_DIMENSION * side < (s + 1) * side;
    CancelStrict(MAX_DIMENSION, s + 1, side);
  }
}
