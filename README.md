# Agnostic-person and guidance masks of a virtual try-on pipeline, in Dafny

This project models the mask logic of a virtual try-on pipeline and proves
its properties. The logic works on decoded label maps from a human-parsing
model that uses the LIP label taxonomy. It covers two files:

- **Agnostic person** (`src/agnostic_logic.py`, `get_agnostic_person`):
  - Garment and arm pixels (LIP 5 upper-clothes, 6 dress, 7 coat, 14 and 15
    arms) form a mask.
  - The mask is dilated with a square all-ones kernel of side
    `dilation_kernel_size` (default 25).
  - The protected pixels are taken out: 1 hat, 2 hair, 3 glove,
    4 sunglasses, 10 neck, 13 face.
  - The rest is painted gray (128, 128, 128) on a copy of the image.
  - On a copy of the parse map, the un-dilated garment and arm pixels are set
    to background 0.
- **Guidance map** (`src/agnostic_logic.py`, `get_densepose_guidance`):
  - The DensePose torso and arm codes (1, 2, 11, 12, 13, 14) form a mask.
  - The mask is closed with a 5x5 kernel (3 iterations), then dilated
    (2 iterations).
  - The protected pixels are taken out.
  - On a copy of the parse map, labels 5, 6 and 7 are cleared to 0, and then
    the target is labelled 5.
- **Older variant** (`src/verify_agnostic.py`, lines 8-35):
  - A parse array with a channel axis is reduced to its first channel.
  - The gray region is the whole dilated mask. Protected pixels are not
    taken out.

Modules:
- `Lip`: the label constants. Both source files declare the same agnostic
  list, so it is defined once here.
- `Grids`: rectangular grids.
  - `Copy` models `x.copy()`. It produces a fresh `array2`.
  - `Assign` models the masked assignment `x[mask] = v`. It is a nested loop
    that updates the array in place.
  - `Overwrite` is the value that `Assign` computes.
- `Morphology`: from first principles, it defines:
  - `np.isin`;
  - dilation and erosion with a k x k window anchored at k/2 (outside the
    image: unset for dilation, set for erosion);
  - iterated dilation and erosion;
  - closing, as n dilations followed by n erosions.
- `AgnosticLogic` and `VerifyAgnostic`: the two source files.
  - Each operation is a method that builds the masks as expressions, copies
    its inputs and overwrites the copies in place, in the source's order.
  - Each method's `ensures` ties its result to a specification function.
  - The lemmas prove what the source promises about those functions.

Inputs are decoded arrays:
- an RGB image is a `seq<seq<Rgb>>` with 8-bit channels;
- a label map is a `seq<seq<int>>`;
- a 0/1 mask is a `seq<seq<bool>>`.

The operations fail in three cases:
- A NumPy boolean index whose shape differs from the array it indexes raises
  `IndexError`. This is modelled as `Failure(ShapeMismatch)`.
- Indexing channel 0 of an array with no channels is modelled as
  `Failure(NoChannel)`.
- OpenCV's morphology refuses an array without pixels (no rows, or rows
  without columns). This is modelled as `Failure(EmptyArray)`, at the first
  `cv2.dilate` or `cv2.morphologyEx` call that receives such an array.

Facts about the code that the model keeps:
- The label map is cleared on the un-dilated mask only
  (src/agnostic_logic.py:46, `AgnosticLogic.ParseCleared`). Only the image is
  grayed on the dilated mask.
- `dilation_kernel_size` is a parameter with default 25
  (src/agnostic_logic.py:16, src/verify_agnostic.py:8). The model accepts any
  size of at least 1.
- The label lists and the guidance kernel (5 x 5, closing 3 times, dilating
  twice) are constants.
- Only `Morphology.CloseExtensive` needs an odd kernel, and the guidance
  kernel is odd.

## Model

| member | source | states |
|---|---|---|
| `Lip.AgnosticPreserveDisjoint` | src/agnostic_logic.py:7-14 | no label is both erased and preserved |
| `Grids.Overwrite` | src/agnostic_logic.py:45-46 | masked assignment on a copy: cells under the mask take the value, all other cells keep theirs, and the shape is kept |
| `Grids.Copy` | src/agnostic_logic.py:39 | `copy()` gives a fresh array with the same shape and cells |
| `Grids.Assign` | src/agnostic_logic.py:41 | in-place `a[mask] = v`: the array afterwards equals `Overwrite` of its old contents |
| `Morphology.IsIn` | src/agnostic_logic.py:25-28 | `np.isin`: same shape, set exactly where the label is in the set |
| `Morphology.Minus` | src/agnostic_logic.py:36 | `(a == 1) & (b == 0)`: set exactly where a is set and b is not |
| `Morphology.Dilate` | src/agnostic_logic.py:31-32 | same shape; a pixel is set exactly when some in-image pixel of its k x k window (anchored at k/2) is set |
| `Morphology.Erode` | src/agnostic_logic.py:75-77 | same shape; a pixel is set exactly when every in-image pixel of its window is set (pixels outside the image count as set) |
| `Morphology.DilateN` | src/agnostic_logic.py:79 | n successive dilations keep the shape |
| `Morphology.ErodeN` | src/agnostic_logic.py:77 | n successive erosions keep the shape |
| `Morphology.Close` | src/agnostic_logic.py:77 | closing keeps the shape |
| `Morphology.DilateExtensive` | src/agnostic_logic.py:30-32 | with kernel size of at least 1, dilation keeps every set pixel |
| `Morphology.DilateMonotone` | src/agnostic_logic.py:32 | a larger mask dilates to a larger mask |
| `Morphology.DilateKernelMonotone` | src/agnostic_logic.py:31-32 | a larger kernel never dilates to a smaller mask |
| `Morphology.DilateEmpty` | src/agnostic_logic.py:32 | dilating an empty mask gives an empty mask |
| `Morphology.ErodeMonotone` | src/agnostic_logic.py:77 | a larger mask erodes to a larger mask |
| `Morphology.ErodeDilateExtensive` | src/agnostic_logic.py:76-77 | with an odd kernel, dilation then erosion keeps every set pixel |
| `Morphology.DilateNExtensive` | src/agnostic_logic.py:78-79 | iterated dilation keeps every set pixel |
| `Morphology.ErodeNMonotone` | src/agnostic_logic.py:77 | iterated erosion is monotone in the mask |
| `Morphology.CloseExtensive` | src/agnostic_logic.py:74-77 | with an odd kernel, closing for any number of iterations keeps every set pixel |
| `AgnosticLogic.AgnosticMask` | src/agnostic_logic.py:28 | the agnostic mask has the parse map's shape |
| `AgnosticLogic.EraseRegion` | src/agnostic_logic.py:30-36 | the final erase mask has the parse map's shape |
| `AgnosticLogic.AgnosticImage` | src/agnostic_logic.py:38-41 | the agnostic image has the input image's height and width |
| `AgnosticLogic.AgnosticParse` | src/agnostic_logic.py:43-46 | the agnostic parse has the input parse map's height and width |
| `AgnosticLogic.GetAgnosticPerson` | src/agnostic_logic.py:16-48 | fails on a parse map without pixels (refused by the dilation); otherwise fails with a shape mismatch if image and parse map differ in shape; otherwise returns the agnostic image and agnostic parse |
| `AgnosticLogic.DilatedMaskIsNearAgnostic` | src/agnostic_logic.py:28-32 | a pixel of the dilated mask is exactly a pixel whose k x k window holds label 5, 6, 7, 14 or 15 |
| `AgnosticLogic.GrayExactlyWhereErased` | src/agnostic_logic.py:25-41 | a pixel turns gray exactly when its window holds an agnostic label and its own label is not protected; all other pixels keep their colour |
| `AgnosticLogic.ParseCleared` | src/agnostic_logic.py:44-46 | no agnostic label remains; agnostic pixels become 0 and all others keep their label (un-dilated mask) |
| `AgnosticLogic.ProtectedPixelsKept` | src/agnostic_logic.py:34-46 | pixels labelled 1, 2, 3, 4, 10 or 13 keep their colour and their label |
| `AgnosticLogic.AgnosticPixelsGray` | src/agnostic_logic.py:28-41 | with kernel size of at least 1, every agnostic-labelled pixel is gray |
| `AgnosticLogic.GrayRegionGrowsWithKernel` | src/agnostic_logic.py:30-41 | for kernel sizes k1 <= k2, the k1 erase region lies inside the k2 one, and all of it is gray with k2 |
| `AgnosticLogic.DefaultKernelReach` | src/agnostic_logic.py:16-41 | with the default kernel of 25, an unprotected pixel within 12 rows and 12 columns of an agnostic pixel is gray |
| `AgnosticLogic.NoAgnosticLabelsUnchanged` | src/agnostic_logic.py:25-46 | an input without agnostic labels returns image and parse map unchanged |
| `AgnosticLogic.AgnosticIdempotent` | src/agnostic_logic.py:39-46 | running the operation again on its own output changes nothing |
| `AgnosticLogic.NeutralTarget` | src/agnostic_logic.py:72-79 | the closed and dilated DensePose target has the segmentation's shape |
| `AgnosticLogic.ProtectedTarget` | src/agnostic_logic.py:81-83 | the protected target has the parse map's shape |
| `AgnosticLogic.Guidance` | src/agnostic_logic.py:86-93 | the guidance map has the parse map's shape |
| `AgnosticLogic.GetDenseposeGuidance` | src/agnostic_logic.py:50-95 | fails on a segmentation without pixels (refused by the closing); otherwise fails with a shape mismatch if parse map and segmentation differ in shape; otherwise returns the guidance map, with the writes in the source's order |
| `AgnosticLogic.GuidanceLabels` | src/agnostic_logic.py:86-93 | the guidance map never holds 6 or 7; it holds 5 exactly on the target minus the protected pixels |
| `AgnosticLogic.GuidanceKeepsLabels` | src/agnostic_logic.py:81-93 | protected pixels keep their label; off the target, garment labels become 0 and all other labels are kept |
| `AgnosticLogic.SurfaceCovered` | src/agnostic_logic.py:58-93 | every DensePose torso or arm pixel whose label is not protected is labelled 5 |
| `VerifyAgnostic.FirstChannel` | src/verify_agnostic.py:15-23 | a successful first-channel extraction is a rectangular label map |
| `VerifyAgnostic.GrayRegion` | src/verify_agnostic.py:25-27 | the dilated mask has the label map's shape |
| `VerifyAgnostic.AgnosticImage` | src/verify_agnostic.py:29-30 | the agnostic image has the input image's height and width |
| `VerifyAgnostic.Agnostic` | src/verify_agnostic.py:8-35 | succeeds exactly when channel 0 exists, has pixels and matches the image's shape (otherwise NoChannel, EmptyArray or ShapeMismatch); a success returns an image and a label map of the image's height and width |
| `VerifyAgnostic.GetAgnosticPerson` | src/verify_agnostic.py:8-35 | returns exactly the variant's result: channel 0 of a 3-D parse, masks, gray fill and label clearing, or the failure |
| `VerifyAgnostic.FirstChannelOnly` | src/verify_agnostic.py:18-23 | a 3-D parse behaves as its first channel; with no channels it fails; on success the label map is H x W like the image |
| `VerifyAgnostic.LabelMapCleared` | src/verify_agnostic.py:25-33 | the returned label map is channel 0 with labels 5, 6, 7, 14, 15 set to 0 and all others kept |
| `VerifyAgnostic.GrayExactlyNearAgnostic` | src/verify_agnostic.py:25-30 | a pixel turns gray exactly when its window holds an agnostic label, whatever its own label |
| `VerifyAgnostic.AgnosticPixelsGray` | src/verify_agnostic.py:25-30 | every agnostic pixel is gray; every pixel outside the dilated mask keeps its colour |
| `VerifyAgnostic.GraysProtectedPixels` | src/verify_agnostic.py:29-30 | the variant grays everything the main version does; it also grays protected pixels near garments, which the main version keeps |
| `VerifyAgnostic.NoAgnosticLabelsUnchanged` | src/verify_agnostic.py:25-33 | an input with pixels and without agnostic labels returns image and label map unchanged; one without pixels is refused |

## Left out

- Image decoding and encoding are not modelled: `Image.open`, `.convert("RGB")`, `.convert("L")` (a floating-point luminance mix on RGB input) and `Image.fromarray`. The operations take and return decoded integer arrays.
- File paths and the module-level driver (src/verify_agnostic.py:37-45) are I/O and are not modelled.
- The subprocess wrappers (src/run_schp.py, src/run_densepose.py, src/run_openpose.py) call external programs and are not modelled.
- The plotting script (src/visualize_guidance.py) is not modelled.
- The notebook-editing scripts under scripts/ are not modelled. The function bodies inside their string literals are text, not code.
- How OpenCV computes its operations is not modelled. Dilation, erosion and their iterations are defined by what they compute; iterations are successive applications.
- AgnosticLogic.GetAgnosticPerson: requires a kernel size of at least 1. For a negative size, `np.ones` raises. For size 0, OpenCV substitutes its own default kernel. Neither case is modelled.
- VerifyAgnostic.GetAgnosticPerson: requires a kernel size of at least 1, for the same reason.
- Morphology.CloseExtensive: proved only for odd kernels. With an even kernel the anchor is off-centre and OpenCV's closing need not keep every pixel. The source's closing kernel is 5.
- Label values are unbounded integers. The source stores them as 8-bit integers, but the mask logic only compares and assigns constants, so no wrap-around can occur.
- A parse array with a channel axis is handled only in the variant, as the source does. In src/agnostic_logic.py the parse map is taken to be two-dimensional.
- An array with zero rows is represented without a width, so the model cannot tell two such arrays of different widths apart. These arrays are refused as empty anyway, so no result differs.
