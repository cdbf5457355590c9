# Mask R-CNN instance post-processing, modelled in Dafny

This project models the per-detection loop of `mask-rcnn/mask_rcnn.py`. The
loop runs after the Mask R-CNN forward pass. For each raw detection index `i` it:

1. keeps the detection only if its confidence is strictly above 0.5;
2. scales its normalised box by the image width and height and truncates it to integers;
3. takes the soft mask plane of its class, resizes it to the box, and thresholds it strictly at 0.3;
4. cuts a "segmented instance" crop from the box's region of the image, keeping masked pixels and zeroing the rest (`cv2.bitwise_and` with a 0/255 mask);
5. blends the overlay colour `(255, 0, 0)` 0.4/0.6 into the masked pixels of the shared image;
6. draws the box outline and a label.

Modules, one file each:

- `numerics.dfy` (`Numerics`): truncation toward zero (`int(...)`, `astype("int")`), and the channel blend done in integers, `(2c + 3p) / 5`.
- `pixels.dfy` (`Pixels`): pixels, images, the integer `PixelBox`, and the numpy view of a box: read it (`Roi`) and write back through it (`Patch`).
- `detections.dfy` (`Detections`): the detector record, the confidence filter, box resolution, and mask selection, resize and threshold.
- `compositing.dfy` (`Compositing`): boolean indexing `roi[mask]` (`Gather`), masked assignment `view[mask] = blended` (`Scatter`), the masked blend, and the bitwise-AND crop.
- `pipeline.dfy` (`Pipeline`): one loop step, and the loop as a left fold over raw detection indices.
- `wrappers.dfy` (`Wrappers`): `Option`.

Modelling assumptions:

- Confidences, box coordinates and soft-mask values are exact reals. The float comparisons and the float-by-integer products are taken as exact.
- The blend is modelled in integers. For channel values 0..255, `trunc(0.4 c + 0.6 p)` equals `(2c + 3p) / 5`, and `BlendChannel` proves this.
- The overlay colour is applied by channel index, exactly as written. On OpenCV's BGR buffer it raises channel 0, which is blue.
- `cv2.resize(..., INTER_NEAREST)` is a parameter, `Collaborators.resize`. Only its output shape is assumed: `height` rows of `width` cells.
- `cv2.rectangle` and `cv2.putText` are a parameter, `Collaborators.annotate`. The only assumption is that it keeps the image an H x W 8-bit image.
- Annotation is part of each step. So a later detection's crop can contain the outlines and labels drawn by earlier ones, as in the program.

The model follows the code as written:

- Box corners are truncated, not rounded, and never clamped.
- There is no empty-region behaviour. An empty box makes `cv2.resize` fail. A box reaching past the image edge, or straddling coordinate 0, gives a region smaller than the mask, and `cv2.bitwise_and` on line 93 rejects the size mismatch. A box wholly at negative coordinates wraps around under Python slicing. So a non-empty in-image box is a precondition, and only for accepted detections.
- The blend is truncated by the `uint8` cast, not rounded.
- Crops are named by the raw detection index `i`, not by the position among accepted detections.

## Model

| member | source | states |
|---|---|---|
| Numerics.Trunc | mask-rcnn/mask_rcnn.py:74 | the integer conversion drops the fraction toward zero: `t <= v < t + 1` for `v >= 0`, and `t - 1 < v <= t` for `v < 0` |
| Numerics.BlendChannel | mask-rcnn/mask_rcnn.py:108 | the integer blend `(2c + 3p) / 5` equals `trunc(0.4 c + 0.6 p)`, stays in 0..255, and lies between `c` and `p` |
| Pixels.Roi | mask-rcnn/mask_rcnn.py:86 | the region has the box's shape, and its pixel (r, c) is image pixel (startY + r, startX + c) |
| Pixels.Patch | mask-rcnn/mask_rcnn.py:111 | writing through the box view changes only in-box pixels, which take the region's values; the result is still an H x W 8-bit image |
| Detections.ResolveBox | mask-rcnn/mask_rcnn.py:73-76 | each corner is the scaled normalised coordinate (x by W, y by H) truncated toward zero, with no rounding and no clamping |
| Detections.ResolveBoxExample | mask-rcnn/mask_rcnn.py:73-74 | (0.25, 0.25, 0.75, 0.75), exact in float32, on a 100 x 100 image resolves to (25, 25, 75, 75) |
| Detections.ResolveBoxTruncatesTowardZero | mask-rcnn/mask_rcnn.py:73-74 | 0.999 of 100 columns is 99, not 100; -0.001 of 100 columns is 0, not -1 |
| Detections.MaskFor | mask-rcnn/mask_rcnn.py:81-83 | the mask comes from the plane of the detection's class, has exactly boxH rows and boxW columns, and a cell is set iff its resized value is strictly above 0.3 |
| Compositing.BlendPixel | mask-rcnn/mask_rcnn.py:108 | each channel k becomes `trunc(0.4 C[k] + 0.6 p[k])` with C = (255, 0, 0), and stays 8-bit |
| Compositing.BlendWhite | mask-rcnn/mask_rcnn.py:108 | a white pixel blends to (255, 153, 153): only channel 0 keeps full value |
| Compositing.BlendBlack | mask-rcnn/mask_rcnn.py:108 | a black pixel blends to (102, 0, 0) |
| Compositing.GatherRow | mask-rcnn/mask_rcnn.py:104 | on one row, `row[m]` holds the set columns' pixels left to right: set column x is at the count of set columns before x |
| Compositing.Gather | mask-rcnn/mask_rcnn.py:104 | `roi[mask]` has as many pixels as the mask has set cells, all 8-bit, in row-major order: set cell (y, x) is at the count of set cells in rows above y plus those left of x in row y |
| Compositing.ScatterRow | mask-rcnn/mask_rcnn.py:111 | on one row, `row[m] = vals` gives set column x the value at the count of set columns before x, and keeps every clear column |
| Compositing.Scatter | mask-rcnn/mask_rcnn.py:111 | `roi[mask] = vals` consumes `vals` in row-major order: set cell (y, x) takes the value at its row-major rank among set cells, and every clear cell keeps its pixel |
| Compositing.ScatterRowBlended | mask-rcnn/mask_rcnn.py:104-111 | on one row, scattering the blended gathered pixels back blends each masked pixel from its own value and keeps each unmasked one |
| Compositing.ScatterBlended | mask-rcnn/mask_rcnn.py:104-111 | the same over the whole region, with pixels consumed in row-major order |
| Compositing.MaskedBlend | mask-rcnn/mask_rcnn.py:104-111 | every masked pixel in the box becomes the blend of its own value; every pixel outside the box and every unmasked in-box pixel is unchanged |
| Compositing.AndChannelSelf | mask-rcnn/mask_rcnn.py:93 | an 8-bit value ANDed with itself is unchanged |
| Compositing.Instance | mask-rcnn/mask_rcnn.py:92-93 | the crop has the region's shape, equals the region pixel where the mask is set, and is all-zero where it is clear |
| Pipeline.CropOf | mask-rcnn/mask_rcnn.py:81-93 | a detection's crop, in box coordinates, is the current image pixel where its mask is set and zero elsewhere |
| Pipeline.Step | mask-rcnn/mask_rcnn.py:61-118 | a crop is produced iff confidence > 0.5; at or below it the image is unchanged; an accepted crop is cut from the image before this detection's blend |
| Pipeline.RunPrefix | mask-rcnn/mask_rcnn.py:57-118 | after indices 0..k-1, the image is still H x W 8-bit, and every crop comes from an accepted index below k, in strictly increasing raw index order |
| Pipeline.ExportedIffAccepted | mask-rcnn/mask_rcnn.py:66-101 | the set of exported crop names is exactly the set of indices whose confidence is strictly above 0.5 |
| Pipeline.CropSeesEarlierDetections | mask-rcnn/mask_rcnn.py:86-111 | crop i is cut from the image after all earlier indices were applied, and before detection i's own blend |
| Pipeline.NothingAcceptedNothingChanges | mask-rcnn/mask_rcnn.py:57-66 | if no detection passes the filter, the image is untouched and no crop is written |
| Pipeline.Run | mask-rcnn/mask_rcnn.py:57-124 | the whole loop yields an H x W 8-bit image and one crop per accepted index, in increasing raw index order |
| Pipeline.SingleAcceptedDetection | mask-rcnn/mask_rcnn.py:57-118 | one accepted detection gives exactly one crop, named 0, cut from the input image; the image is then blended under the mask and annotated |

## Left out

- Reading the label file, loading the network, `cv2.imread`, `blobFromImage`, `net.forward`, and the timing and shape prints (mask-rcnn/mask_rcnn.py:17-54). They are I/O and inference with no logic to model. The detector output arrives as the `dets` and `masks` arguments.
- Both `cv2.imwrite` calls. A crop write is modelled as an `Export` named by its raw index. The composite write at line 124 sits inside the loop, so it runs once per raw detection. The model returns only the final image. With zero raw detections the program writes no composite at all, and this is not modelled.
- The resampling formula of `cv2.resize` with `INTER_NEAREST`. It is foreign code; only the output shape is assumed.
- Line and font rasterisation by `cv2.rectangle` and `cv2.putText`. They are foreign code. So "nothing else changes" is stated for the blend (`MaskedBlend`), not for the whole step. The label text is the fixed string "Person", and `LABELS` is never used.
- Boxes that are empty or reach outside the image, a class id outside `0 .. planes - 1`, and a missing `masks[i]`. In the program these raise an error or wrap around under Python indexing. For example, a negative class id `-1` selects the last plane, and a box wholly at negative coordinates takes rows or columns counted from the far edge. For accepted detections these cases are excluded by preconditions: `Processable` requires an in-image box and a class id from 0 up.
- Images with other than 3 channels. Broadcasting the 3-element colour would fail on them.
- IEEE-754 rounding of the confidence comparison, the box scaling, the mask threshold and the blend. All are treated as exact.
- `BLACK_COLOR` (line 24). It is defined but never used.
