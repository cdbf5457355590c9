/**
 What one accepted detection does with its binary mask: the instance crop
 (`cv2.bitwise_and` of the region with itself under a 0/255 mask) and the
 masked colour blend written back into the shared image.
 */
module Compositing {
  import opened Numerics
  import opened Pixels
  import opened Detections

  /**
   `RED_COLOR = np.array([255, 0, 0])`, applied by channel index. On OpenCV's
   BGR buffer this raises channel 0, which is blue.
   */
  const RedColor := Pixel(255, 0, 0)

  /** `(0.4 * RED_COLOR + 0.6 * p).astype("uint8")` for one pixel. */
  function BlendPixel(p: Pixel): (q: Pixel)
    requires p.IsBytes()
    ensures q.IsBytes()
    ensures q.c0 == Trunc(0.4 * RedColor.c0 as real + 0.6 * p.c0 as real)
    ensures q.c1 == Trunc(0.4 * RedColor.c1 as real + 0.6 * p.c1 as real)
    ensures q.c2 == Trunc(0.4 * RedColor.c2 as real + 0.6 * p.c2 as real)
  {
    Pixel(BlendChannel(RedColor.c0, p.c0), BlendChannel(RedColor.c1, p.c1), BlendChannel(RedColor.c2, p.c2))
  }

  /** The overlay lands on channel 0 only: a white pixel becomes (255, 153, 153). */
  lemma BlendWhite()
    ensures BlendPixel(Pixel(255, 255, 255)) == Pixel(255, 153, 153)
  {
    var q := BlendPixel(Pixel(255, 255, 255));
    assert q.c0 == BlendChannel(255, 255) == 255;
    assert q.c1 == BlendChannel(0, 255) == 153;
    assert q.c2 == BlendChannel(0, 255);
  }

  /** A black pixel becomes (102, 0, 0). */
  lemma BlendBlack()
    ensures BlendPixel(Black) == Pixel(102, 0, 0)
  {
    var q := BlendPixel(Black);
    assert q.c0 == BlendChannel(255, 0) == 102;
    assert q.c1 == BlendChannel(0, 0) == 0;
    assert q.c2 == BlendChannel(0, 0);
  }

  predicate AllBytes(ps: seq<Pixel>)
  {
    forall k :: 0 <= k < |ps| ==> ps[k].IsBytes()
  }

  /** Every pixel of a possibly ragged grid has 8-bit channels. */
  predicate GridBytes(img: Image)
  {
    forall y, x :: 0 <= y < |img| && 0 <= x < |img[y]| ==> img[y][x].IsBytes()
  }

  /** `roi` and `mask` have the same number of rows, and row by row the same length. */
  predicate SameShape<T>(roi: seq<seq<T>>, mask: BinaryMask)
  {
    |roi| == |mask| && forall y :: 0 <= y < |roi| ==> |roi[y]| == |mask[y]|
  }

  /** The vectorised blend of the flat array `roi[mask]`. */
  function BlendAll(ps: seq<Pixel>): (qs: seq<Pixel>)
    requires AllBytes(ps)
    ensures |qs| == |ps|
    ensures forall k :: 0 <= k < |ps| ==> qs[k] == BlendPixel(ps[k])
  {
    seq(|ps|, k requires 0 <= k < |ps| => BlendPixel(ps[k]))
  }

  /** Number of set cells in one mask row. */
  function CountRow(m: seq<bool>): nat
  {
    if |m| == 0 then 0 else (if m[0] then 1 else 0) + CountRow(m[1..])
  }

  /** Number of set cells in a mask. */
  function Count(mask: BinaryMask): nat
  {
    if |mask| == 0 then 0 else CountRow(mask[0]) + Count(mask[1..])
  }

  /** The set cells before column `x` are those of column 0 plus those of the rest of the row before `x`. */
  lemma CountRowSplit(m: seq<bool>)
    requires 0 < |m|
    ensures CountRow(m[..0]) == 0
    ensures forall x :: 0 < x <= |m| ==> CountRow(m[..x]) == (if m[0] then 1 else 0) + CountRow(m[1..][..x - 1])
  {
    assert m[..0] == [];
    forall x | 0 < x <= |m|
      ensures CountRow(m[..x]) == (if m[0] then 1 else 0) + CountRow(m[1..][..x - 1])
    {
      assert m[..x][1..] == m[1..][..x - 1];
    }
  }

  /** The set cells above row `y` are those of row 0 plus those of the remaining rows above `y`. */
  lemma CountSplit(mask: BinaryMask)
    requires 0 < |mask|
    ensures Count(mask[..0]) == 0
    ensures forall y :: 0 < y <= |mask| ==> Count(mask[..y]) == CountRow(mask[0]) + Count(mask[1..][..y - 1])
  {
    assert mask[..0] == [];
    forall y | 0 < y <= |mask|
      ensures Count(mask[..y]) == CountRow(mask[0]) + Count(mask[1..][..y - 1])
    {
      assert mask[..y][1..] == mask[1..][..y - 1];
    }
  }

  /** Row-major rank of cell (y, x) among the set cells: those in the rows above plus those to its left. */
  function Rank(mask: BinaryMask, y: int, x: int): nat
    requires 0 <= y < |mask| && 0 <= x <= |mask[y]|
  {
    Count(mask[..y]) + CountRow(mask[y][..x])
  }

  /** The rank in a mask is the rank in its first row, or the first row's count plus the rank in the remaining rows. */
  lemma RankSplit(mask: BinaryMask, y: int, x: int)
    requires 0 <= y < |mask| && 0 <= x <= |mask[y]|
    ensures y == 0 ==> Rank(mask, y, x) == CountRow(mask[0][..x])
    ensures 0 < y ==> Rank(mask, y, x) == CountRow(mask[0]) + Rank(mask[1..], y - 1, x)
  {
    CountSplit(mask);
    assert 0 < y ==> mask[1..][y - 1] == mask[y];
  }

  /**
   Boolean indexing `row[m]`: the pixels of a row whose mask cell is set, left
   to right. The pixel of set column `x` sits at the number of set columns
   before it.
   */
  function GatherRow(row: seq<Pixel>, m: seq<bool>): (g: seq<Pixel>)
    requires |row| == |m|
    ensures |g| == CountRow(m)
    ensures forall x :: 0 <= x < |row| && m[x] ==> CountRow(m[..x]) < |g| && g[CountRow(m[..x])] == row[x]
    ensures AllBytes(row) ==> AllBytes(g)
  {
    if |row| == 0 then []
    else
      CountRowSplit(m);
      assert forall x :: 0 < x < |row| ==> row[1..][x - 1] == row[x] && m[1..][x - 1] == m[x];
      (if m[0] then [row[0]] else []) + GatherRow(row[1..], m[1..])
  }

  /**
   Boolean indexing `roi[mask]`: the masked pixels in row-major order. The
   pixel of set cell (y, x) sits at the number of set cells in the rows above
   plus the set cells to its left.
   */
  function Gather(roi: Image, mask: BinaryMask): (g: seq<Pixel>)
    requires SameShape(roi, mask)
    ensures |g| == Count(mask)
    ensures forall y, x :: 0 <= y < |roi| && 0 <= x < |roi[y]| && mask[y][x] ==>
              Rank(mask, y, x) < |g| && g[Rank(mask, y, x)] == roi[y][x]
    ensures GridBytes(roi) ==> AllBytes(g)
  {
    if |roi| == 0 then []
    else
      assert GridBytes(roi) ==> AllBytes(roi[0]);
      CountSplit(mask);
      assert forall y :: 0 < y < |roi| ==> roi[1..][y - 1] == roi[y] && mask[1..][y - 1] == mask[y];
      GatherRow(roi[0], mask[0]) + Gather(roi[1..], mask[1..])
  }

  /**
   Masked assignment `row[m] = vals`: set cells take the values of `vals` left
   to right, set column `x` the one at the number of set columns before it;
   clear cells keep the row's pixel.
   */
  function ScatterRow(row: seq<Pixel>, m: seq<bool>, vals: seq<Pixel>): (r: seq<Pixel>)
    requires |row| == |m| && |vals| == CountRow(m)
    ensures |r| == |row|
    ensures forall x :: 0 <= x < |row| && m[x] ==> CountRow(m[..x]) < |vals| && r[x] == vals[CountRow(m[..x])]
    ensures forall x :: 0 <= x < |row| && !m[x] ==> r[x] == row[x]
  {
    if |row| == 0 then []
    else
      CountRowSplit(m);
      assert forall x :: 0 < x < |row| ==> row[1..][x - 1] == row[x] && m[1..][x - 1] == m[x];
      if m[0] then [vals[0]] + ScatterRow(row[1..], m[1..], vals[1..])
      else [row[0]] + ScatterRow(row[1..], m[1..], vals)
  }

  /**
   Masked assignment `roi[mask] = vals`, consuming `vals` in row-major order:
   set cell (y, x) takes the value at the number of set cells in the rows above
   plus the set cells to its left; clear cells keep the region's pixel.
   */
  function Scatter(roi: Image, mask: BinaryMask, vals: seq<Pixel>): (r: Image)
    requires SameShape(roi, mask) && |vals| == Count(mask)
    ensures SameShape(r, mask)
    ensures forall y, x :: 0 <= y < |roi| && 0 <= x < |roi[y]| && mask[y][x] ==>
              Rank(mask, y, x) < |vals| && r[y][x] == vals[Rank(mask, y, x)]
    ensures forall y, x :: 0 <= y < |roi| && 0 <= x < |roi[y]| && !mask[y][x] ==> r[y][x] == roi[y][x]
  {
    if |roi| == 0 then []
    else
      var n := CountRow(mask[0]);
      var head := ScatterRow(roi[0], mask[0], vals[..n]);
      var tail := Scatter(roi[1..], mask[1..], vals[n..]);
      ScatterCons(roi, mask, vals, head, tail);
      [head] + tail
  }

  /**
   The row-major placement of `Scatter` carries over from the first row (taking
   the first `CountRow(mask[0])` values) and the remaining rows (taking the rest).
   */
  lemma ScatterCons(roi: Image, mask: BinaryMask, vals: seq<Pixel>, head: seq<Pixel>, tail: Image)
    requires 0 < |roi| && SameShape(roi, mask) && |vals| == Count(mask)
    requires |head| == |roi[0]| && SameShape(tail, mask[1..])
    requires forall x :: 0 <= x < |roi[0]| && mask[0][x] ==>
               CountRow(mask[0][..x]) < |vals[..CountRow(mask[0])]|
               && head[x] == vals[..CountRow(mask[0])][CountRow(mask[0][..x])]
    requires forall x :: 0 <= x < |roi[0]| && !mask[0][x] ==> head[x] == roi[0][x]
    requires forall y, x :: 0 <= y < |roi[1..]| && 0 <= x < |roi[1..][y]| && mask[1..][y][x] ==>
               Rank(mask[1..], y, x) < |vals[CountRow(mask[0])..]|
               && tail[y][x] == vals[CountRow(mask[0])..][Rank(mask[1..], y, x)]
    requires forall y, x :: 0 <= y < |roi[1..]| && 0 <= x < |roi[1..][y]| && !mask[1..][y][x] ==> tail[y][x] == roi[1..][y][x]
    ensures forall y, x :: 0 <= y < |roi| && 0 <= x < |roi[y]| && mask[y][x] ==>
              Rank(mask, y, x) < |vals|
              && ([head] + tail)[y][x] == vals[Rank(mask, y, x)]
    ensures forall y, x :: 0 <= y < |roi| && 0 <= x < |roi[y]| && !mask[y][x] ==> ([head] + tail)[y][x] == roi[y][x]
  {
    var r := [head] + tail;
    forall y, x | 0 <= y < |roi| && 0 <= x < |roi[y]|
      ensures mask[y][x] ==> Rank(mask, y, x) < |vals| && r[y][x] == vals[Rank(mask, y, x)]
      ensures !mask[y][x] ==> r[y][x] == roi[y][x]
    {
      RankSplit(mask, y, x);
      if y == 0 {
        assert r[0] == head;
      } else {
        assert r[y] == tail[y - 1];
        assert roi[1..][y - 1] == roi[y] && mask[1..][y - 1] == mask[y];
        if mask[y][x] {
          assert tail[y - 1][x] == vals[CountRow(mask[0])..][Rank(mask[1..], y - 1, x)];
        }
      }
    }
  }

  /**
   On one row, writing back the blend of the gathered pixels blends exactly the
   masked pixels, each from its own value: the rank at which `GatherRow` puts a
   pixel is the rank from which `ScatterRow` takes it back.
   */
  lemma ScatterRowBlended(row: seq<Pixel>, m: seq<bool>)
    requires |row| == |m| && AllBytes(row)
    ensures forall x :: 0 <= x < |row| ==>
              ScatterRow(row, m, BlendAll(GatherRow(row, m)))[x] == if m[x] then BlendPixel(row[x]) else row[x]
  {
  }

  /**
   `blended = f(roi[mask]); roi[mask] = blended` changes each masked pixel to
   the blend of its own value and leaves every unmasked pixel as it was.
   */
  lemma ScatterBlended(roi: Image, mask: BinaryMask)
    requires SameShape(roi, mask) && GridBytes(roi)
    ensures forall y, x :: 0 <= y < |roi| && 0 <= x < |roi[y]| ==>
              Scatter(roi, mask, BlendAll(Gather(roi, mask)))[y][x]
                == if mask[y][x] then BlendPixel(roi[y][x]) else roi[y][x]
  {
  }

  /**
   Lines `roi = roi[mask]`, `blended = ...` and
   `image[startY:endY, startX:endX][mask] = blended`: every masked pixel in the
   box becomes the 0.4/0.6 blend of the overlay colour and its own value; every
   pixel outside the box and every in-box pixel whose mask cell is clear is
   left unchanged.
   */
  function MaskedBlend(canvas: Image, h: int, w: int, b: PixelBox, mask: BinaryMask): (r: Image)
    requires IsImage(canvas, h, w) && b.InsideImage(h, w) && IsGrid(mask, b.Height(), b.Width())
    ensures IsImage(r, h, w)
    ensures forall y, x :: 0 <= y < h && 0 <= x < w && b.Contains(y, x) && mask[y - b.startY][x - b.startX] ==>
              r[y][x] == BlendPixel(canvas[y][x])
    ensures forall y, x :: 0 <= y < h && 0 <= x < w && !(b.Contains(y, x) && mask[y - b.startY][x - b.startX]) ==>
              r[y][x] == canvas[y][x]
  {
    var roi := Roi(canvas, h, w, b);
    var written := Scatter(roi, mask, BlendAll(Gather(roi, mask)));
    ScatterBlended(roi, mask);
    Patch(canvas, h, w, b, written)
  }

  /** Bitwise AND of two 8-bit channel values. */
  function AndChannel(a: int, b: int): (r: int)
    requires IsByte(a) && IsByte(b)
    ensures IsByte(r)
  {
    ((a as bv8) & (b as bv8)) as int
  }

  /** A value ANDed with itself is unchanged. */
  lemma AndChannelSelf(a: int)
    requires IsByte(a)
    ensures AndChannel(a, a) == a
  {
    assert (a as bv8) & (a as bv8) == a as bv8;
  }

  function AndPixel(p: Pixel, q: Pixel): (r: Pixel)
    requires p.IsBytes() && q.IsBytes()
    ensures r.IsBytes()
  {
    Pixel(AndChannel(p.c0, q.c0), AndChannel(p.c1, q.c1), AndChannel(p.c2, q.c2))
  }

  /** `(mask * 255).astype("uint8")`: 255 where the mask is set, 0 elsewhere. */
  function VisMask(mask: BinaryMask): (v: seq<seq<int>>)
    ensures SameShape(v, mask)
  {
    seq(|mask|, y requires 0 <= y < |mask| =>
      seq(|mask[y]|, x requires 0 <= x < |mask[y]| => if mask[y][x] then 255 else 0))
  }

  /** `cv2.bitwise_and(src1, src2, mask=m)`: the channel-wise AND where `m` is non-zero, zero elsewhere. */
  function BitwiseAnd(src1: Image, src2: Image, m: seq<seq<int>>, h: nat, w: nat): (r: Image)
    requires IsImage(src1, h, w) && IsImage(src2, h, w) && IsGrid(m, h, w)
    ensures IsImage(r, h, w)
    ensures forall y, x :: 0 <= y < h && 0 <= x < w ==>
              r[y][x] == if m[y][x] != 0 then AndPixel(src1[y][x], src2[y][x]) else Black
  {
    seq(h, y requires 0 <= y < h =>
      seq(w, x requires 0 <= x < w => if m[y][x] != 0 then AndPixel(src1[y][x], src2[y][x]) else Black))
  }

  /**
   The segmented instance `cv2.bitwise_and(roi, roi, mask=visMask)`: it has the
   region's shape, keeps the region's pixel wherever the mask is set, and is
   all-zero wherever it is clear.
   */
  function Instance(roi: Image, mask: BinaryMask, h: nat, w: nat): (crop: Image)
    requires IsImage(roi, h, w) && IsGrid(mask, h, w)
    ensures IsImage(crop, h, w)
    ensures forall y, x :: 0 <= y < h && 0 <= x < w ==>
              crop[y][x] == if mask[y][x] then roi[y][x] else Black
  {
    var vis := VisMask(mask);
    var crop := BitwiseAnd(roi, roi, vis, h, w);
    forall y, x | 0 <= y < h && 0 <= x < w
      ensures crop[y][x] == if mask[y][x] then roi[y][x] else Black
    {
      var p := roi[y][x];
      AndChannelSelf(p.c0);
      AndChannelSelf(p.c1);
      AndChannelSelf(p.c2);
    }
    crop
  }
}
