/** Luminance sampling (main.py, `sample_region_luminance`): the mean
    grey value of one grid cell, clipped to the image, with white (255)
    standing in for a cell that has no pixels. */
module Luminance {
  import opened Basics

  /** One 8-bit grey level, 0 = black and 255 = white. */
  type Pixel = v: int | 0 <= v <= 255

  /** A single-channel ("L" mode) image; `rows[j][i]` is column i of row j. */
  datatype Gray = Gray(width: nat, height: nat, rows: seq<seq<Pixel>>) {
    ghost predicate Valid() {
      |rows| == height && forall j :: 0 <= j < height ==> |rows[j]| == width
    }
  }

  /** `list(img.crop((x0, y0, x1, y1)).getdata())`: the pixels of the
      rectangle [x0, x1) x [y0, y1), row by row. */
  function Region(img: Gray, x0: nat, x1: nat, y0: nat, y1: nat): (ps: seq<Pixel>)
    requires img.Valid() && x0 <= x1 <= img.width && y1 <= img.height
    decreases if y0 < y1 then y1 - y0 else 0
  {
    if y1 <= y0 then [] else img.rows[y0][x0..x1] + Region(img, x0, x1, y0 + 1, y1)
  }

  function Sum(ps: seq<Pixel>): int {
    if |ps| == 0 then 0 else ps[0] + Sum(ps[1..])
  }

  /** `sum(pixels) / len(pixels)`. */
  function Mean(ps: seq<Pixel>): real
    requires |ps| > 0
  {
    Sum(ps) as real / |ps| as real
  }

  /** `sample_region_luminance(img, x, y, step)`. The crop box must not be
      inverted, which is why the corner may not lie beyond the image. */
  function Sample(img: Gray, x: nat, y: nat, step: nat): (lum: real)
    requires img.Valid() && x <= img.width && y <= img.height
    ensures 0.0 <= lum <= 255.0
    ensures x == img.width || y == img.height || step == 0 ==> lum == 255.0
  {
    var ps := Region(img, x, Min(x + step, img.width), y, Min(y + step, img.height));
    RegionSize(img, x, Min(x + step, img.width), y, Min(y + step, img.height));
    if |ps| == 0 then 255.0
    else
      RegionBetween(img, x, Min(x + step, img.width), y, Min(y + step, img.height), 0, 255);
      MeanBetween(ps, 0, 255);
      Mean(ps)
  }

  /** Every pixel of the clipped block lies in [lo, hi]. */
  ghost predicate BlockWithin(img: Gray, x0: nat, x1: nat, y0: nat, y1: nat, lo: int, hi: int)
    requires img.Valid() && x1 <= img.width && y1 <= img.height
  {
    forall j, i :: y0 <= j < y1 && x0 <= i < x1 ==> lo <= img.rows[j][i] <= hi
  }

  /** The number of pixels in the crop is the area of the rectangle. */
  lemma {:induction false} RegionSize(img: Gray, x0: nat, x1: nat, y0: nat, y1: nat)
    requires img.Valid() && x0 <= x1 <= img.width && y0 <= y1 <= img.height
    ensures |Region(img, x0, x1, y0, y1)| == (x1 - x0) * (y1 - y0)
    decreases y1 - y0
  {
    if y0 < y1 {
      RegionSize(img, x0, x1, y0 + 1, y1);
      assert (x1 - x0) * (y1 - y0) == (x1 - x0) + (x1 - x0) * (y1 - (y0 + 1));
    }
  }

  /** Bounds on the pixels of a rectangle carry over to the cropped pixel list. */
  lemma {:induction false} RegionBetween(img: Gray, x0: nat, x1: nat, y0: nat, y1: nat, lo: int, hi: int)
    requires img.Valid() && x0 <= x1 <= img.width && y1 <= img.height
    requires BlockWithin(img, x0, x1, y0, y1, lo, hi)
    ensures forall k :: 0 <= k < |Region(img, x0, x1, y0, y1)| ==> lo <= Region(img, x0, x1, y0, y1)[k] <= hi
    decreases if y0 < y1 then y1 - y0 else 0
  {
    if y0 < y1 {
      RegionBetween(img, x0, x1, y0 + 1, y1, lo, hi);
      var row := img.rows[y0][x0..x1];
      var rest := Region(img, x0, x1, y0 + 1, y1);
      assert Region(img, x0, x1, y0, y1) == row + rest;
      forall k | 0 <= k < |row + rest|
        ensures lo <= (row + rest)[k] <= hi
      {
        if k < |row| {
          assert (row + rest)[k] == img.rows[y0][x0 + k];
        } else {
          assert (row + rest)[k] == rest[k - |row|];
        }
      }
    }
  }

  /** A list of pixels within [lo, hi] sums to between lo and hi times its length. */
  lemma {:induction false} SumBetween(ps: seq<Pixel>, lo: int, hi: int)
    requires forall k :: 0 <= k < |ps| ==> lo <= ps[k] <= hi
    ensures lo * |ps| <= Sum(ps) <= hi * |ps|
  {
    if |ps| > 0 {
      SumBetween(ps[1..], lo, hi);
      assert lo * |ps| == lo + lo * (|ps| - 1);
      assert hi * |ps| == hi + hi * (|ps| - 1);
    }
  }

  /** The mean of values within [lo, hi] also lies within [lo, hi]. */
  lemma MeanBetween(ps: seq<Pixel>, lo: int, hi: int)
    requires |ps| > 0
    requires forall k :: 0 <= k < |ps| ==> lo <= ps[k] <= hi
    ensures lo as real <= Mean(ps) <= hi as real
  {
    SumBetween(ps, lo, hi);
    var n := |ps| as real;
    var s := Sum(ps) as real;
    assert lo as real * n <= s <= hi as real * n;
    DivideBounds(s, n, lo as real, hi as real);
  }

  lemma DivideBounds(s: real, n: real, lo: real, hi: real)
    requires 0.0 < n && lo * n <= s <= hi * n
    ensures lo <= s / n <= hi
  {
    var q := s / n;
    assert (q - lo) * n == s - lo * n;
    assert (hi - q) * n == hi * n - s;
  }

  /** A cell visited by the grid walk (corner inside the image, positive
      stride) is never empty, so its luminance is a true mean. */
  lemma {:induction false} CellNotEmpty(img: Gray, x: nat, y: nat, step: nat)
    requires img.Valid() && x < img.width && y < img.height && 1 <= step
    ensures |Region(img, x, Min(x + step, img.width), y, Min(y + step, img.height))| >= 1
  {
    var x1 := Min(x + step, img.width);
    var y1 := Min(y + step, img.height);
    RegionSize(img, x, x1, y, y1);
    assert (x1 - x) * (y1 - y) >= 1 * 1;
  }

  /** Luminance lies between the darkest and the brightest pixel of the cell. */
  lemma SampleBetween(img: Gray, x: nat, y: nat, step: nat, lo: int, hi: int)
    requires img.Valid() && x < img.width && y < img.height && 1 <= step
    requires BlockWithin(img, x, Min(x + step, img.width), y, Min(y + step, img.height), lo, hi)
    ensures lo as real <= Sample(img, x, y, step) <= hi as real
  {
    var x1 := Min(x + step, img.width);
    var y1 := Min(y + step, img.height);
    CellNotEmpty(img, x, y, step);
    RegionBetween(img, x, x1, y, y1, lo, hi);
    MeanBetween(Region(img, x, x1, y, y1), lo, hi);
  }

  /** A cell of uniform grey value v has luminance exactly v. */
  lemma SampleUniform(img: Gray, x: nat, y: nat, step: nat, v: Pixel)
    requires img.Valid() && x < img.width && y < img.height && 1 <= step
    requires BlockWithin(img, x, Min(x + step, img.width), y, Min(y + step, img.height), v, v)
    ensures Sample(img, x, y, step) == v as real
  {
    SampleBetween(img, x, y, step, v, v);
  }
}
