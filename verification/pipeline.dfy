/**
 The loop `for i in range(0, boxes.shape[2])` of mask-rcnn/mask_rcnn.py: one
 step per raw detection index, applied to the shared image in increasing index
 order, each accepted detection leaving an instance crop named by its index.
 */
module Pipeline {
  import opened Wrappers
  import opened Pixels
  import opened Detections
  import opened Compositing

  /**
   The OpenCV routines the loop calls and whose code is not part of this model:
   the nearest-neighbour resize of a mask plane, and the drawing of the box
   outline and the "Person: <confidence>" label onto the image.
   */
  datatype Collaborators = Collaborators(resize: Resampler, annotate: (Image, PixelBox, real) -> Image)

  /** The resize gives the requested shape, and drawing keeps the image an `h` x `w` 8-bit image. */
  ghost predicate WellBehaved(env: Collaborators, h: nat, w: nat)
  {
    && ResizesToShape(env.resize)
    && forall c, b, conf :: IsImage(c, h, w) ==> IsImage(env.annotate(c, b, conf), h, w)
  }

  /**
   What an accepted detection needs for its loop body not to raise: its box lies
   inside the image and is non-empty, and its class indexes a mask plane.
   */
  predicate Processable(d: Detection, planes: seq<SoftMask>, h: nat, w: nat)
  {
    ResolveBox(d, w, h).InsideImage(h, w) && 0 <= ClassId(d) < |planes|
  }

  /** Every accepted detection has its mask planes `masks[i]` and is processable. */
  predicate AllProcessable(dets: seq<Detection>, masks: seq<seq<SoftMask>>, h: nat, w: nat)
  {
    forall i :: 0 <= i < |dets| && Accepts(dets[i]) ==> i < |masks| && Processable(dets[i], masks[i], h, w)
  }

  /**
   The binary mask of an accepted detection: the plane of its class, resized
   to its box, set iff the resized value is strictly above the mask threshold.
   */
  function DetectionMask(env: Collaborators, d: Detection, planes: seq<SoftMask>, h: nat, w: nat): (m: BinaryMask)
    requires WellBehaved(env, h, w) && Processable(d, planes, h, w)
    ensures var b := ResolveBox(d, w, h);
            && IsGrid(m, b.Height(), b.Width())
            && forall y, x :: 0 <= y < b.Height() && 0 <= x < b.Width() ==>
                 (m[y][x] <==> env.resize(planes[ClassId(d)], b.Width(), b.Height())[y][x] > MaskThreshold)
  {
    MaskFor(d, planes, ResolveBox(d, w, h), env.resize)
  }

  /**
   The segmented instance of an accepted detection, cut from `canvas`: the
   box's shape, the canvas pixel wherever the mask is set, zero elsewhere.
   */
  function CropOf(canvas: Image, h: nat, w: nat, env: Collaborators, d: Detection, planes: seq<SoftMask>): (crop: Image)
    requires IsImage(canvas, h, w) && WellBehaved(env, h, w) && Processable(d, planes, h, w)
    ensures var b := ResolveBox(d, w, h);
            var m := DetectionMask(env, d, planes, h, w);
            && IsImage(crop, b.Height(), b.Width())
            && forall y, x :: 0 <= y < b.Height() && 0 <= x < b.Width() ==>
                 crop[y][x] == if m[y][x] then canvas[b.startY + y][b.startX + x] else Black
  {
    var b := ResolveBox(d, w, h);
    Instance(Roi(canvas, h, w, b), DetectionMask(env, d, planes, h, w), b.Height(), b.Width())
  }

  datatype StepResult = StepResult(canvas: Image, crop: Option<Image>)

  /**
   One pass of the loop body for raw index `i`. A detection at or below the
   confidence threshold leaves the image as it is and produces no crop. An
   accepted one produces the crop of the image as it stood BEFORE this
   detection's blend, then blends its mask into the image and draws its box
   and label over the result.
   */
  function Step(canvas: Image, h: nat, w: nat, env: Collaborators, d: Detection, masks: seq<seq<SoftMask>>, i: nat): (r: StepResult)
    requires IsImage(canvas, h, w) && WellBehaved(env, h, w)
    requires Accepts(d) ==> i < |masks| && Processable(d, masks[i], h, w)
    ensures IsImage(r.canvas, h, w)
    ensures r.crop.Some? <==> Accepts(d)
    ensures !Accepts(d) ==> r.canvas == canvas
    ensures Accepts(d) ==> r.crop.value == CropOf(canvas, h, w, env, d, masks[i])
    ensures Accepts(d) ==>
              var b := ResolveBox(d, w, h);
              r.canvas == env.annotate(MaskedBlend(canvas, h, w, b, DetectionMask(env, d, masks[i], h, w)), b, d.confidence)
  {
    if !Accepts(d) then StepResult(canvas, None)
    else
      var b := ResolveBox(d, w, h);
      var mask := DetectionMask(env, d, masks[i], h, w);
      var crop := Instance(Roi(canvas, h, w, b), mask, b.Height(), b.Width());
      var blended := MaskedBlend(canvas, h, w, b, mask);
      StepResult(env.annotate(blended, b, d.confidence), Some(crop))
  }

  /** `cv2.imwrite("output/segmented{}.png".format(i), instance)`: a crop named by raw index `i`. */
  datatype Export = Export(index: nat, crop: Image)

  datatype Outcome = Outcome(canvas: Image, exports: seq<Export>)

  /** Exported crops carry strictly increasing raw indices. */
  predicate IndicesIncreasing(es: seq<Export>)
  {
    forall j, j' :: 0 <= j < j' < |es| ==> es[j].index < es[j'].index
  }

  /**
   The state after the loop has run for raw indices 0 .. k - 1: a left fold of
   `Step` over the detections, in index order. Every exported crop comes from
   an accepted detection below `k`, and indices strictly increase.
   */
  function RunPrefix(image: Image, h: nat, w: nat, env: Collaborators, dets: seq<Detection>, masks: seq<seq<SoftMask>>, k: nat): (o: Outcome)
    requires IsImage(image, h, w) && WellBehaved(env, h, w) && AllProcessable(dets, masks, h, w)
    requires k <= |dets|
    ensures IsImage(o.canvas, h, w)
    ensures forall j :: 0 <= j < |o.exports| ==> o.exports[j].index < k && Accepts(dets[o.exports[j].index])
    ensures IndicesIncreasing(o.exports)
    decreases k
  {
    if k == 0 then Outcome(image, [])
    else
      var prev := RunPrefix(image, h, w, env, dets, masks, k - 1);
      var s := Step(prev.canvas, h, w, env, dets[k - 1], masks, k - 1);
      Outcome(s.canvas, prev.exports + if s.crop.Some? then [Export(k - 1, s.crop.value)] else [])
  }

  function ExportIndices(es: seq<Export>): set<nat>
  {
    set j | 0 <= j < |es| :: es[j].index
  }

  function AcceptedBelow(dets: seq<Detection>, k: nat): set<nat>
    requires k <= |dets|
  {
    set i: nat | i < k && Accepts(dets[i])
  }

  lemma ExportIndicesAppend(es: seq<Export>, e: Export)
    ensures ExportIndices(es + [e]) == ExportIndices(es) + {e.index}
  {
    var es' := es + [e];
    assert es'[|es|] == e;
    forall n | n in ExportIndices(es)
      ensures n in ExportIndices(es')
    {
      var j :| 0 <= j < |es| && es[j].index == n;
      assert es'[j] == es[j];
    }
  }

  lemma AcceptedBelowStep(dets: seq<Detection>, k: nat)
    requires 0 < k <= |dets|
    ensures AcceptedBelow(dets, k) == AcceptedBelow(dets, k - 1) + if Accepts(dets[k - 1]) then {k - 1} else {}
  {
  }

  /** A crop is exported for raw index i < k iff detection i's confidence is strictly above the threshold. */
  lemma {:induction false} ExportedIffAccepted(image: Image, h: nat, w: nat, env: Collaborators, dets: seq<Detection>, masks: seq<seq<SoftMask>>, k: nat)
    requires IsImage(image, h, w) && WellBehaved(env, h, w) && AllProcessable(dets, masks, h, w)
    requires k <= |dets|
    ensures ExportIndices(RunPrefix(image, h, w, env, dets, masks, k).exports) == AcceptedBelow(dets, k)
  {
    if k > 0 {
      ExportedIffAccepted(image, h, w, env, dets, masks, k - 1);
      var prev := RunPrefix(image, h, w, env, dets, masks, k - 1);
      var o := RunPrefix(image, h, w, env, dets, masks, k);
      AcceptedBelowStep(dets, k);
      if Accepts(dets[k - 1]) {
        var s := Step(prev.canvas, h, w, env, dets[k - 1], masks, k - 1);
        assert o.exports == prev.exports + [Export(k - 1, s.crop.value)];
        ExportIndicesAppend(prev.exports, Export(k - 1, s.crop.value));
      } else {
        assert o.exports == prev.exports;
      }
    }
  }

  /**
   Each exported crop is cut from the image as it stood after every earlier
   index had been processed (their blends and drawings included) and before
   its own detection's blend.
   */
  lemma {:induction false} CropSeesEarlierDetections(image: Image, h: nat, w: nat, env: Collaborators, dets: seq<Detection>, masks: seq<seq<SoftMask>>, k: nat, j: nat)
    requires IsImage(image, h, w) && WellBehaved(env, h, w) && AllProcessable(dets, masks, h, w)
    requires k <= |dets|
    requires j < |RunPrefix(image, h, w, env, dets, masks, k).exports|
    ensures var e := RunPrefix(image, h, w, env, dets, masks, k).exports[j];
            var before := RunPrefix(image, h, w, env, dets, masks, e.index);
            e.crop == CropOf(before.canvas, h, w, env, dets[e.index], masks[e.index])
  {
    var prev := RunPrefix(image, h, w, env, dets, masks, k - 1);
    var o := RunPrefix(image, h, w, env, dets, masks, k);
    if j < |prev.exports| {
      assert o.exports[j] == prev.exports[j];
      CropSeesEarlierDetections(image, h, w, env, dets, masks, k - 1, j);
    } else {
      assert o.exports[j] == Export(k - 1, Step(prev.canvas, h, w, env, dets[k - 1], masks, k - 1).crop.value);
    }
  }

  /** With no detection above the threshold, the image is untouched and nothing is exported. */
  lemma {:induction false} NothingAcceptedNothingChanges(image: Image, h: nat, w: nat, env: Collaborators, dets: seq<Detection>, masks: seq<seq<SoftMask>>, k: nat)
    requires IsImage(image, h, w) && WellBehaved(env, h, w) && AllProcessable(dets, masks, h, w)
    requires k <= |dets|
    requires forall i :: 0 <= i < k ==> !Accepts(dets[i])
    ensures RunPrefix(image, h, w, env, dets, masks, k) == Outcome(image, [])
  {
    if k > 0 {
      NothingAcceptedNothingChanges(image, h, w, env, dets, masks, k - 1);
    }
  }

  /**
   The whole loop over `boxes.shape[2]` detections: the final image, and one
   crop per detection above the confidence threshold, in raw index order and
   named by raw index.
   */
  function Run(image: Image, h: nat, w: nat, env: Collaborators, dets: seq<Detection>, masks: seq<seq<SoftMask>>): (o: Outcome)
    requires IsImage(image, h, w) && WellBehaved(env, h, w) && AllProcessable(dets, masks, h, w)
    ensures IsImage(o.canvas, h, w)
    ensures IndicesIncreasing(o.exports)
    ensures ExportIndices(o.exports) == AcceptedBelow(dets, |dets|)
  {
    ExportedIffAccepted(image, h, w, env, dets, masks, |dets|);
    RunPrefix(image, h, w, env, dets, masks, |dets|)
  }

  /**
   A run over a single accepted detection exports exactly one crop, named 0,
   cut from the untouched input image, and leaves the image blended under the
   mask and then annotated.
   */
  lemma SingleAcceptedDetection(image: Image, h: nat, w: nat, env: Collaborators, d: Detection, planes: seq<SoftMask>)
    requires IsImage(image, h, w) && WellBehaved(env, h, w)
    requires Accepts(d) && Processable(d, planes, h, w)
    ensures var b := ResolveBox(d, w, h);
            var o := Run(image, h, w, env, [d], [planes]);
            && o.exports == [Export(0, CropOf(image, h, w, env, d, planes))]
            && o.canvas == env.annotate(MaskedBlend(image, h, w, b, DetectionMask(env, d, planes, h, w)), b, d.confidence)
  {
    assert AllProcessable([d], [planes], h, w);
    var o0 := RunPrefix(image, h, w, env, [d], [planes], 0);
    assert o0 == Outcome(image, []);
  }
}
