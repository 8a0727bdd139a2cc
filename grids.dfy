/**
 * Greyscale and mask images as grids of 8-bit values, the binary mask built in
 * Image.get_text_boxes, and NumPy slicing as used by Image.crop_contours.
 */
module Grids {

  /** An 8-bit pixel value (NumPy uint8). */
  type Byte = x: int | 0 <= x < 256

  /** An image as a sequence of rows. */
  type Grid = seq<seq<Byte>>

  /** A bounding box as cv2.boundingRect returns it: top-left corner, width, height. */
  datatype Box = Box(x: nat, y: nat, w: nat, h: nat)

  /** `g` has `height` rows of `width` pixels each. */
  ghost predicate IsGrid(g: Grid, height: nat, width: nat) {
    |g| == height && forall i :: 0 <= i < |g| ==> |g[i]| == width
  }

  /** Two grids of the same shape, row for row. */
  ghost predicate SameShape(a: Grid, b: Grid) {
    |a| == |b| && forall i :: 0 <= i < |a| ==> |a[i]| == |b[i]|
  }

  /** cv2.threshold with THRESH_BINARY_INV: `maxval` where not above `thresh`, 0 above it. */
  function ThresholdBinaryInv(g: Grid, thresh: int, maxval: Byte): (r: Grid)
    ensures SameShape(r, g)
  {
    seq(|g|, i requires 0 <= i < |g| =>
      seq(|g[i]|, j requires 0 <= j < |g[i]| => if g[i][j] > thresh then 0 else maxval))
  }

  /** cv2.threshold with THRESH_BINARY: `maxval` above `thresh`, 0 elsewhere. */
  function ThresholdBinary(g: Grid, thresh: int, maxval: Byte): (r: Grid)
    ensures SameShape(r, g)
  {
    seq(|g|, i requires 0 <= i < |g| =>
      seq(|g[i]|, j requires 0 <= j < |g[i]| => if g[i][j] > thresh then maxval else 0))
  }

  /** `255 - g` on a uint8 array: every value is mirrored, none wraps. */
  function Invert(g: Grid): (r: Grid)
    ensures SameShape(r, g)
  {
    seq(|g|, i requires 0 <= i < |g| =>
      seq(|g[i]|, j requires 0 <= j < |g[i]| => 255 - g[i][j]))
  }

  /** The mask of Image.get_text_boxes: inverse threshold at 250, then inverted again. */
  function Mask(gray: Grid): (m: Grid)
    ensures SameShape(m, gray)
    ensures forall i, j :: 0 <= i < |m| && 0 <= j < |m[i]| ==>
      (m[i][j] == 255 <==> gray[i][j] > 250) && (m[i][j] == 0 <==> gray[i][j] <= 250)
  {
    Invert(ThresholdBinaryInv(gray, 250, 255))
  }

  /** The double inversion is the same as a plain binary threshold at 250. */
  lemma MaskIsBinaryThreshold(gray: Grid)
    ensures Mask(gray) == ThresholdBinary(gray, 250, 255)
  {
    var m, t := Mask(gray), ThresholdBinary(gray, 250, 255);
    forall i | 0 <= i < |gray| ensures m[i] == t[i] {
      assert |m[i]| == |t[i]|;
    }
  }

  /** The mask of a `height` by `width` image is a `height` by `width` image. */
  lemma MaskShape(gray: Grid, height: nat, width: nat)
    requires IsGrid(gray, height, width)
    ensures IsGrid(Mask(gray), height, width)
  {
  }

  function Min(a: int, b: int): int { if a <= b then a else b }

  /**
   * NumPy basic slicing `s[lo:hi]` with non-negative bounds: both bounds are
   * clamped to the length and an inverted range is empty.
   */
  function Slice<T>(s: seq<T>, lo: nat, hi: nat): (r: seq<T>)
    ensures |r| == if Min(lo, |s|) <= Min(hi, |s|) then Min(hi, |s|) - Min(lo, |s|) else 0
    ensures forall i :: 0 <= i < |r| ==> r[i] == s[lo + i]
  {
    var a, b := Min(lo, |s|), Min(hi, |s|);
    if a <= b then s[a..b] else []
  }

  /** `g[y : y + h, x : x + w]`, the crop of Image.crop_contours. */
  function Crop(g: Grid, b: Box): (r: Grid)
    ensures |r| == |Slice(g, b.y, b.y + b.h)|
    ensures forall i :: 0 <= i < |r| ==> r[i] == Slice(g[b.y + i], b.x, b.x + b.w)
  {
    var rows := Slice(g, b.y, b.y + b.h);
    seq(|rows|, i requires 0 <= i < |rows| => Slice(rows[i], b.x, b.x + b.w))
  }

  /**
   * The crop of a `height` by `width` grid is the part of the box that lies in
   * the grid: its shape is the box clamped to the grid, and its pixel (i, j) is
   * the grid's pixel (y + i, x + j).
   */
  lemma CropShape(g: Grid, height: nat, width: nat, b: Box)
    requires IsGrid(g, height, width)
    ensures IsGrid(Crop(g, b), Min(b.y + b.h, height) - Min(b.y, height), Min(b.x + b.w, width) - Min(b.x, width))
    ensures forall i, j :: 0 <= i < |Crop(g, b)| && 0 <= j < |Crop(g, b)[i]| ==>
      Crop(g, b)[i][j] == g[b.y + i][b.x + j]
  {
  }

  /** A box inside the grid is cut out exactly: `h` rows of `w` pixels. */
  lemma CropInside(g: Grid, height: nat, width: nat, b: Box)
    requires IsGrid(g, height, width)
    requires b.x + b.w <= width && b.y + b.h <= height
    ensures IsGrid(Crop(g, b), b.h, b.w)
    ensures forall i, j :: 0 <= i < b.h && 0 <= j < b.w ==> Crop(g, b)[i][j] == g[b.y + i][b.x + j]
  {
    CropShape(g, height, width, b);
  }
}
