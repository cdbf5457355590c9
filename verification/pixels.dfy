/**
 The image buffer of the mask-rcnn post-processing loop: an H x W grid of
 3-channel 8-bit pixels, the integer pixel box a detection resolves to, and the
 two numpy slicing operations the loop performs on it (taking the box's region
 as a view, and writing a region back through that view).
 */
module Pixels {
  import opened Numerics

  /**
   One pixel of an image loaded by OpenCV. Channels are kept in the buffer's own
   index order: `c0` is channel 0, which OpenCV's BGR layout uses for blue.
   */
  datatype Pixel = Pixel(c0: int, c1: int, c2: int)
  {
    predicate IsBytes()
    {
      IsByte(c0) && IsByte(c1) && IsByte(c2)
    }
  }

  /** The all-zero pixel. */
  const Black := Pixel(0, 0, 0)

  /** Rows of pixels, top row first. */
  type Image = seq<seq<Pixel>>

  /** `g` is a rectangular grid of `h` rows of `w` cells. */
  predicate IsGrid<T>(g: seq<seq<T>>, h: int, w: int)
  {
    |g| == h && forall y :: 0 <= y < |g| ==> |g[y]| == w
  }

  /** `img` is an `h` x `w` image whose channels are all 8-bit values. */
  predicate IsImage(img: Image, h: int, w: int)
  {
    && IsGrid(img, h, w)
    && forall y, x :: 0 <= y < h && 0 <= x < w ==> img[y][x].IsBytes()
  }

  /**
   The integer box `(startX, startY, endX, endY)` of a detection: columns
   `startX .. endX - 1` of rows `startY .. endY - 1`.
   */
  datatype PixelBox = PixelBox(startX: int, startY: int, endX: int, endY: int)
  {
    function Width(): int
    {
      endX - startX
    }

    function Height(): int
    {
      endY - startY
    }

    predicate Contains(y: int, x: int)
    {
      startY <= y < endY && startX <= x < endX
    }

    /** A non-empty box lying wholly inside an `h` x `w` image. */
    predicate InsideImage(h: int, w: int)
    {
      0 <= startX < endX <= w && 0 <= startY < endY <= h
    }
  }

  /** `image[startY:endY, startX:endX]`: the box's region, row `r` column `c` of it being image pixel (startY + r, startX + c). */
  function Roi(img: Image, h: int, w: int, b: PixelBox): (roi: Image)
    requires IsImage(img, h, w) && b.InsideImage(h, w)
    ensures IsImage(roi, b.Height(), b.Width())
    ensures forall r, c :: 0 <= r < b.Height() && 0 <= c < b.Width() ==>
              roi[r][c] == img[b.startY + r][b.startX + c]
  {
    seq(b.Height(), r requires 0 <= r < b.Height() => img[b.startY + r][b.startX .. b.endX])
  }

  /** One image row with columns `from .. from + |seg| - 1` replaced by `seg`. */
  function SpliceRow(row: seq<Pixel>, from: int, seg: seq<Pixel>): (r: seq<Pixel>)
    requires 0 <= from && from + |seg| <= |row|
    ensures |r| == |row|
    ensures forall x :: 0 <= x < |r| ==>
              r[x] == if from <= x < from + |seg| then seg[x - from] else row[x]
  {
    row[..from] + seg + row[from + |seg|..]
  }

  /** Row `y` of `img` after `region` is written through the box's view. */
  function PatchRow(img: Image, h: int, w: int, b: PixelBox, region: Image, y: int): (r: seq<Pixel>)
    requires IsImage(img, h, w) && b.InsideImage(h, w)
    requires IsImage(region, b.Height(), b.Width())
    requires 0 <= y < h
    ensures |r| == w
    ensures forall x :: 0 <= x < w ==>
              r[x] == if b.Contains(y, x) then region[y - b.startY][x - b.startX] else img[y][x]
  {
    if b.startY <= y < b.endY then SpliceRow(img[y], b.startX, region[y - b.startY]) else img[y]
  }

  /**
   Writing `region` back through the view `image[startY:endY, startX:endX]`:
   pixels inside the box take the region's values, all others keep theirs.
   */
  function Patch(img: Image, h: int, w: int, b: PixelBox, region: Image): (r: Image)
    requires IsImage(img, h, w) && b.InsideImage(h, w)
    requires IsImage(region, b.Height(), b.Width())
    ensures IsImage(r, h, w)
    ensures forall y, x :: 0 <= y < h && 0 <= x < w && b.Contains(y, x) ==>
              r[y][x] == region[y - b.startY][x - b.startX]
    ensures forall y, x :: 0 <= y < h && 0 <= x < w && !b.Contains(y, x) ==>
              r[y][x] == img[y][x]
  {
    var r := seq(h, y requires 0 <= y < h => PatchRow(img, h, w, b, region, y));
    assert forall y :: 0 <= y < h ==> r[y] == PatchRow(img, h, w, b, region, y);
    r
  }
}
