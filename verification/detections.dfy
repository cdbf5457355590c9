/**
 One detector output record and what the loop derives from it before touching
 the image: the confidence filter, the integer pixel box, and the binary mask.
 */
module Detections {
  import opened Numerics
  import opened Pixels

  /** A class-specific soft mask plane, `masks[i, classID]`, values in [0, 1]. */
  type SoftMask = seq<seq<real>>

  type BinaryMask = seq<seq<bool>>

  /**
   Row `boxes[0, 0, i]` of the detector output: the class as a float, the
   confidence, and the box corners normalised to the image size.
   */
  datatype Detection = Detection(classValue: real, confidence: real, x0: real, y0: real, x1: real, y1: real)

  /** A detection is kept when its confidence is strictly above this. */
  const ConfidenceThreshold: real := 0.5

  /** A resized mask cell is set when its value is strictly above this. */
  const MaskThreshold: real := 0.3

  predicate Accepts(d: Detection)
  {
    d.confidence > ConfidenceThreshold
  }

  /** `int(boxes[0, 0, i, 1])`. */
  function ClassId(d: Detection): int
  {
    Trunc(d.classValue)
  }

  /**
   `(boxes[0, 0, i, 3:7] * [W, H, W, H]).astype("int")`: each corner is the
   scaled coordinate truncated toward zero; nothing is rounded or clamped.
   */
  function ResolveBox(d: Detection, w: nat, h: nat): (b: PixelBox)
    ensures TowardZero(d.x0 * w as real, b.startX)
    ensures TowardZero(d.y0 * h as real, b.startY)
    ensures TowardZero(d.x1 * w as real, b.endX)
    ensures TowardZero(d.y1 * h as real, b.endY)
  {
    PixelBox(Trunc(d.x0 * w as real), Trunc(d.y0 * h as real), Trunc(d.x1 * w as real), Trunc(d.y1 * h as real))
  }

  /**
   The resampler `cv2.resize(plane, (width, height), interpolation=INTER_NEAREST)`.
   Its index formula belongs to OpenCV; the model uses only the shape it promises.
   */
  type Resampler = (SoftMask, nat, nat) -> SoftMask

  /** `resize` returns `height` rows of `width` cells for every positive target size. */
  ghost predicate ResizesToShape(resize: Resampler)
  {
    forall plane, width, height :: 0 < width && 0 < height ==> IsGrid(resize(plane, width, height), height, width)
  }

  /** `mask > 0.3` on a resized plane. */
  function Threshold(plane: SoftMask): (m: BinaryMask)
    ensures |m| == |plane|
    ensures forall y :: 0 <= y < |m| ==> |m[y]| == |plane[y]|
  {
    seq(|plane|, y requires 0 <= y < |plane| =>
      seq(|plane[y]|, x requires 0 <= x < |plane[y]| => plane[y][x] > MaskThreshold))
  }

  /**
   The binary mask of detection `d` in box `b`: the plane of its class, resized
   to the box and thresholded. It has exactly the box's shape, and a cell is set
   iff the resized value there is strictly above the mask threshold.
   */
  function MaskFor(d: Detection, planes: seq<SoftMask>, b: PixelBox, resize: Resampler): (m: BinaryMask)
    requires 0 <= ClassId(d) < |planes|
    requires 0 < b.Width() && 0 < b.Height() && ResizesToShape(resize)
    ensures IsGrid(m, b.Height(), b.Width())
    ensures forall y, x :: 0 <= y < b.Height() && 0 <= x < b.Width() ==>
              (m[y][x] <==> resize(planes[ClassId(d)], b.Width(), b.Height())[y][x] > MaskThreshold)
  {
    Threshold(resize(planes[ClassId(d)], b.Width(), b.Height()))
  }

  /** Corners that float32 represents exactly: (0.25, 0.25, 0.75, 0.75) on a 100 x 100 image resolves to (25, 25, 75, 75). */
  lemma ResolveBoxExample()
    ensures ResolveBox(Detection(0.0, 0.9, 0.25, 0.25, 0.75, 0.75), 100, 100) == PixelBox(25, 25, 75, 75)
  {
  }

  /**
   A corner just inside the image edge drops its fraction: 0.999 of 100 columns
   is column 99, not 100; and a corner slightly left of the image truncates
   toward zero to column 0 rather than flooring to -1.
   */
  lemma ResolveBoxTruncatesTowardZero()
    ensures ResolveBox(Detection(0.0, 0.9, -0.001, 0.2, 0.999, 0.6), 100, 200) == PixelBox(0, 40, 99, 120)
  {
  }
}
