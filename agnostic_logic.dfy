/** The agnostic person and the DensePose guidance map (src/agnostic_logic.py).

    The agnostic person paints the garment and arm regions of a person image,
    widened by a dilation, in neutral gray, except on the protected parts (hat,
    hair, glove, sunglasses, neck, face), and clears the garment and arm labels
    from the parse map. The guidance map replaces the garment labels of the
    parse map by a smoothed torso-and-arms target taken from a DensePose body
    segmentation, again leaving the protected parts alone. */
module AgnosticLogic {
  import opened Grids
  import opened Morphology
  import opened Lip

  /** The neutral gray the erased region is painted with. */
  const GRAY: Rgb := Rgb(128, 128, 128)

  /** Default `dilation_kernel_size`. */
  const DEFAULT_KERNEL_SIZE: int := 25

  /** Side of the square kernel of the guidance refinement. */
  const GUIDANCE_KERNEL_SIZE: int := 5

  /** Iterations of the closing that fills gaps between arms and torso. */
  const CLOSE_ITERATIONS: nat := 3

  /** Iterations of the dilation that pads the guidance target. */
  const PAD_ITERATIONS: nat := 2

  // ---------------------------------------------------------------------
  // Agnostic person
  // ---------------------------------------------------------------------

  /** Some pixel of the k x k window of (i, j) carries a garment or arm label. */
  predicate NearAgnostic(parse: seq<seq<int>>, i: int, j: int, k: int)
  {
    exists y, x :: i - k / 2 <= y < i - k / 2 + k && j - k / 2 <= x < j - k / 2 + k &&
      0 <= y < |parse| && 0 <= x < |parse[y]| && parse[y][x] in AGNOSTIC_LABELS
  }

  /** `agnostic_mask`: the pixels with a garment or arm label. */
  function AgnosticMask(parse: seq<seq<int>>): (m: Mask)
    requires Rectangular(parse)
    ensures IsGrid(m, |parse|, Width(parse))
  {
    IsIn(parse, AGNOSTIC_LABELS)
  }

  /** `final_agnostic_mask`: the dilated agnostic mask minus the protected
      pixels. */
  function EraseRegion(parse: seq<seq<int>>, k: int): (m: Mask)
    requires Rectangular(parse)
    ensures IsGrid(m, |parse|, Width(parse))
  {
    Minus(Dilate(AgnosticMask(parse), k), IsIn(parse, PRESERVE_LABELS))
  }

  /** The agnostic image: the erase region painted gray on a copy of `image`. */
  function AgnosticImage(image: seq<seq<Rgb>>, parse: seq<seq<int>>, k: int): (r: seq<seq<Rgb>>)
    requires Rectangular(image) && Rectangular(parse) && SameShape(image, parse)
    ensures IsGrid(r, |image|, Width(image))
  {
    Overwrite(image, EraseRegion(parse, k), GRAY)
  }

  /** The agnostic parse: the garment and arm labels set to background on a
      copy of `parse`. */
  function AgnosticParse(parse: seq<seq<int>>): (r: seq<seq<int>>)
    requires Rectangular(parse)
    ensures IsGrid(r, |parse|, Width(parse))
  {
    Overwrite(parse, AgnosticMask(parse), BACKGROUND)
  }

  /** `get_agnostic_person` on decoded arrays: build the masks, copy the image
      and paint the erase region gray in place, copy the parse map and clear
      the agnostic labels in place. The dilation refuses a parse map without
      pixels, and the masked assignment fails unless the image and the parse
      map have the same height and width. */
  method GetAgnosticPerson(image: seq<seq<Rgb>>, parse: seq<seq<int>>, k: int)
    returns (res: Result<(seq<seq<Rgb>>, seq<seq<int>>)>)
    requires Rectangular(image) && Rectangular(parse) && k >= 1
    ensures NoPixels(parse) ==> res == Failure(EmptyArray)
    ensures !NoPixels(parse) && !SameShape(image, parse) ==> res == Failure(ShapeMismatch)
    ensures !NoPixels(parse) && SameShape(image, parse) ==>
      res == Success((AgnosticImage(image, parse, k), AgnosticParse(parse)))
  {
    var preserveMask := IsIn(parse, PRESERVE_LABELS);
    var agnosticMask := IsIn(parse, AGNOSTIC_LABELS);
    if NoPixels(agnosticMask) {
      return Failure(EmptyArray);
    }
    var dilatedMask := Dilate(agnosticMask, k);
    var finalMask := Minus(dilatedMask, preserveMask);
    if !SameShape(image, parse) {
      return Failure(ShapeMismatch);
    }
    var agnosticImg := Copy(image);
    Assign(agnosticImg, finalMask, GRAY);
    var agnosticParse := Copy(parse);
    Assign(agnosticParse, agnosticMask, BACKGROUND);
    res := Success((Snapshot(agnosticImg), Snapshot(agnosticParse)));
  }

  /** A pixel of the dilated agnostic mask is exactly a pixel whose window
      holds a garment or arm label. */
  lemma DilatedMaskIsNearAgnostic(parse: seq<seq<int>>, k: int)
    requires Rectangular(parse)
    ensures forall i, j :: 0 <= i < |parse| && 0 <= j < Width(parse) ==>
      (Dilate(AgnosticMask(parse), k)[i][j] <==> NearAgnostic(parse, i, j, k))
  {
    var m := AgnosticMask(parse);
    forall i, j | 0 <= i < |parse| && 0 <= j < Width(parse)
      ensures Hit(m, i, j, k) <==> NearAgnostic(parse, i, j, k)
    {
      if Hit(m, i, j, k) {
        var y, x :| i - k / 2 <= y < i - k / 2 + k && j - k / 2 <= x < j - k / 2 + k &&
          0 <= y < |m| && 0 <= x < |m[y]| && m[y][x];
        assert parse[y][x] in AGNOSTIC_LABELS;
      }
      if NearAgnostic(parse, i, j, k) {
        var y, x :| i - k / 2 <= y < i - k / 2 + k && j - k / 2 <= x < j - k / 2 + k &&
          0 <= y < |parse| && 0 <= x < |parse[y]| && parse[y][x] in AGNOSTIC_LABELS;
        assert m[y][x];
      }
    }
  }

  /** A pixel of the agnostic image is painted gray exactly when its window
      holds a garment or arm label and its own label is not protected; every
      other pixel keeps its colour. */
  lemma GrayExactlyWhereErased(image: seq<seq<Rgb>>, parse: seq<seq<int>>, k: int)
    requires Rectangular(image) && Rectangular(parse) && SameShape(image, parse)
    ensures forall i, j :: 0 <= i < |image| && 0 <= j < Width(image) ==>
      AgnosticImage(image, parse, k)[i][j] ==
        if NearAgnostic(parse, i, j, k) && parse[i][j] !in PRESERVE_LABELS then GRAY else image[i][j]
  {
    DilatedMaskIsNearAgnostic(parse, k);
  }

  /** The agnostic parse holds no garment or arm label: those pixels become
      background, and every other pixel keeps its label. */
  lemma ParseCleared(parse: seq<seq<int>>)
    requires Rectangular(parse)
    ensures forall i, j :: 0 <= i < |parse| && 0 <= j < Width(parse) ==>
      AgnosticParse(parse)[i][j] !in AGNOSTIC_LABELS
    ensures forall i, j :: 0 <= i < |parse| && 0 <= j < Width(parse) && parse[i][j] in AGNOSTIC_LABELS ==>
      AgnosticParse(parse)[i][j] == BACKGROUND
    ensures forall i, j :: 0 <= i < |parse| && 0 <= j < Width(parse) && parse[i][j] !in AGNOSTIC_LABELS ==>
      AgnosticParse(parse)[i][j] == parse[i][j]
  {
  }

  /** Protected pixels (hat, hair, glove, sunglasses, neck, face) keep their
      colour and their label. */
  lemma ProtectedPixelsKept(image: seq<seq<Rgb>>, parse: seq<seq<int>>, k: int)
    requires Rectangular(image) && Rectangular(parse) && SameShape(image, parse)
    ensures forall i, j :: 0 <= i < |image| && 0 <= j < Width(image) && parse[i][j] in PRESERVE_LABELS ==>
      AgnosticImage(image, parse, k)[i][j] == image[i][j] &&
      AgnosticParse(parse)[i][j] == parse[i][j]
  {
    forall i, j | 0 <= i < |image| && 0 <= j < Width(image) && parse[i][j] in PRESERVE_LABELS
      ensures AgnosticParse(parse)[i][j] == parse[i][j]
    {
      AgnosticPreserveDisjoint(parse[i][j]);
    }
  }

  /** Every pixel with a garment or arm label is gray in the agnostic image:
      the dilation keeps the mask and no agnostic label is protected. */
  lemma AgnosticPixelsGray(image: seq<seq<Rgb>>, parse: seq<seq<int>>, k: int)
    requires Rectangular(image) && Rectangular(parse) && SameShape(image, parse) && k >= 1
    ensures forall i, j :: 0 <= i < |image| && 0 <= j < Width(image) && parse[i][j] in AGNOSTIC_LABELS ==>
      AgnosticImage(image, parse, k)[i][j] == GRAY
  {
    var m := AgnosticMask(parse);
    DilateExtensive(m, k);
    forall i, j | 0 <= i < |image| && 0 <= j < Width(image) && parse[i][j] in AGNOSTIC_LABELS
      ensures EraseRegion(parse, k)[i][j]
    {
      assert m[i][j];
      AgnosticPreserveDisjoint(parse[i][j]);
    }
  }

  /** A larger kernel never shrinks the gray region: whatever is erased with
      kernel size k1 is erased, and gray, with any k2 >= k1. */
  lemma GrayRegionGrowsWithKernel(image: seq<seq<Rgb>>, parse: seq<seq<int>>, k1: int, k2: int)
    requires Rectangular(image) && Rectangular(parse) && SameShape(image, parse)
    requires 1 <= k1 <= k2
    ensures Within(EraseRegion(parse, k1), EraseRegion(parse, k2))
    ensures forall i, j :: 0 <= i < |image| && 0 <= j < Width(image) && EraseRegion(parse, k1)[i][j] ==>
      AgnosticImage(image, parse, k2)[i][j] == GRAY
  {
    var m := AgnosticMask(parse);
    DilateKernelMonotone(m, k1, k2);
    var e1, e2 := EraseRegion(parse, k1), EraseRegion(parse, k2);
    forall i, j | 0 <= i < |e1| && 0 <= j < |e1[i]| && e1[i][j]
      ensures e2[i][j]
    {
      assert Dilate(m, k1)[i][j];
    }
  }

  /** With the default kernel of 25, the gray region reaches 12 pixels past
      the garment and arm pixels in every direction: an unprotected pixel at
      most 12 rows and 12 columns away from an agnostic pixel is gray. */
  lemma DefaultKernelReach(image: seq<seq<Rgb>>, parse: seq<seq<int>>, i: int, j: int, y: int, x: int)
    requires Rectangular(image) && Rectangular(parse) && SameShape(image, parse)
    requires 0 <= i < |parse| && 0 <= j < Width(parse) && 0 <= y < |parse| && 0 <= x < Width(parse)
    requires i - 12 <= y <= i + 12 && j - 12 <= x <= j + 12
    requires parse[y][x] in AGNOSTIC_LABELS && parse[i][j] !in PRESERVE_LABELS
    ensures AgnosticImage(image, parse, DEFAULT_KERNEL_SIZE)[i][j] == GRAY
  {
    assert NearAgnostic(parse, i, j, DEFAULT_KERNEL_SIZE);
    GrayExactlyWhereErased(image, parse, DEFAULT_KERNEL_SIZE);
  }

  /** An input without garment or arm labels comes back unchanged. */
  lemma NoAgnosticLabelsUnchanged(image: seq<seq<Rgb>>, parse: seq<seq<int>>, k: int)
    requires Rectangular(image) && Rectangular(parse) && SameShape(image, parse)
    requires forall i, j :: 0 <= i < |parse| && 0 <= j < Width(parse) ==> parse[i][j] !in AGNOSTIC_LABELS
    ensures AgnosticImage(image, parse, k) == image
    ensures AgnosticParse(parse) == parse
  {
    var m := AgnosticMask(parse);
    DilateEmpty(m, k);
    GridExtensionality(AgnosticImage(image, parse, k), image, |image|, Width(image));
    GridExtensionality(AgnosticParse(parse), parse, |parse|, Width(parse));
  }

  /** Running the agnostic person again on its own output changes nothing. */
  lemma AgnosticIdempotent(image: seq<seq<Rgb>>, parse: seq<seq<int>>, k: int)
    requires Rectangular(image) && Rectangular(parse) && SameShape(image, parse)
    ensures AgnosticImage(AgnosticImage(image, parse, k), AgnosticParse(parse), k) == AgnosticImage(image, parse, k)
    ensures AgnosticParse(AgnosticParse(parse)) == AgnosticParse(parse)
  {
    var img, lab := AgnosticImage(image, parse, k), AgnosticParse(parse);
    ParseCleared(parse);
    NoAgnosticLabelsUnchanged(img, lab, k);
  }

  // ---------------------------------------------------------------------
  // DensePose guidance map
  // ---------------------------------------------------------------------

  /** `neutral_target` before protection: the torso-and-arms surface of the
      DensePose segmentation, closed three times and dilated twice with a 5 x 5
      kernel. */
  function NeutralTarget(segm: seq<seq<int>>): (m: Mask)
    requires Rectangular(segm)
    ensures IsGrid(m, |segm|, Width(segm))
  {
    var surface := IsIn(segm, SURFACE_CODES);
    DilateN(Close(surface, GUIDANCE_KERNEL_SIZE, CLOSE_ITERATIONS), GUIDANCE_KERNEL_SIZE, PAD_ITERATIONS)
  }

  /** `neutral_target` after `neutral_target[preserve_mask == 1] = 0`. */
  function ProtectedTarget(parse: seq<seq<int>>, segm: seq<seq<int>>): (m: Mask)
    requires Rectangular(parse) && Rectangular(segm) && SameShape(parse, segm)
    ensures IsGrid(m, |parse|, Width(parse))
  {
    Overwrite(NeutralTarget(segm), IsIn(parse, PRESERVE_LABELS), false)
  }

  /** The guidance map: on a copy of `parse`, first the garment labels are
      cleared to background, then the protected target is labelled
      upper-clothes. */
  function Guidance(parse: seq<seq<int>>, segm: seq<seq<int>>): (r: seq<seq<int>>)
    requires Rectangular(parse) && Rectangular(segm) && SameShape(parse, segm)
    ensures IsGrid(r, |parse|, Width(parse))
  {
    var cleared := Overwrite(parse, IsIn(parse, GARMENT_LABELS), BACKGROUND);
    Overwrite(cleared, ProtectedTarget(parse, segm), UPPER_CLOTHES)
  }

  /** `get_densepose_guidance` on decoded arrays, with its writes in the
      source's order: protect the target in place, then on a copy of the parse
      map clear the garment labels and assign the target. The parse map and
      the segmentation must have the same height and width, or the first
      masked assignment fails. The closing refuses a segmentation without
      pixels. */
  method GetDenseposeGuidance(parse: seq<seq<int>>, segm: seq<seq<int>>)
    returns (res: Result<seq<seq<int>>>)
    requires Rectangular(parse) && Rectangular(segm)
    ensures NoPixels(segm) ==> res == Failure(EmptyArray)
    ensures !NoPixels(segm) && !SameShape(parse, segm) ==> res == Failure(ShapeMismatch)
    ensures !NoPixels(segm) && SameShape(parse, segm) ==> res == Success(Guidance(parse, segm))
  {
    var guidanceMask := IsIn(segm, SURFACE_CODES);
    if NoPixels(guidanceMask) {
      return Failure(EmptyArray);
    }
    var closed := Close(guidanceMask, GUIDANCE_KERNEL_SIZE, CLOSE_ITERATIONS);
    var neutralTarget := Copy(DilateN(closed, GUIDANCE_KERNEL_SIZE, PAD_ITERATIONS));
    var preserveMask := IsIn(parse, PRESERVE_LABELS);
    if !SameShape(parse, segm) {
      return Failure(ShapeMismatch);
    }
    Assign(neutralTarget, preserveMask, false);
    var guidance := Copy(parse);
    Assign(guidance, IsIn(parse, GARMENT_LABELS), BACKGROUND);
    Assign(guidance, Snapshot(neutralTarget), UPPER_CLOTHES);
    res := Success(Snapshot(guidance));
  }

  /** The guidance map holds no dress or coat label, and upper-clothes
      exactly on the refined target: the DensePose target minus the
      protected pixels. */
  lemma GuidanceLabels(parse: seq<seq<int>>, segm: seq<seq<int>>)
    requires Rectangular(parse) && Rectangular(segm) && SameShape(parse, segm)
    ensures forall i, j :: 0 <= i < |parse| && 0 <= j < Width(parse) ==>
      Guidance(parse, segm)[i][j] != 6 && Guidance(parse, segm)[i][j] != 7
    ensures forall i, j :: 0 <= i < |parse| && 0 <= j < Width(parse) ==>
      (Guidance(parse, segm)[i][j] == UPPER_CLOTHES <==>
       NeutralTarget(segm)[i][j] && parse[i][j] !in PRESERVE_LABELS)
  {
  }

  /** Protected pixels keep their label, and so does every pixel off the
      target whose label is not a garment; garment pixels off the target
      become background. */
  lemma GuidanceKeepsLabels(parse: seq<seq<int>>, segm: seq<seq<int>>)
    requires Rectangular(parse) && Rectangular(segm) && SameShape(parse, segm)
    ensures forall i, j :: 0 <= i < |parse| && 0 <= j < Width(parse) && parse[i][j] in PRESERVE_LABELS ==>
      Guidance(parse, segm)[i][j] == parse[i][j]
    ensures forall i, j :: 0 <= i < |parse| && 0 <= j < Width(parse) && !NeutralTarget(segm)[i][j] ==>
      Guidance(parse, segm)[i][j] == if parse[i][j] in GARMENT_LABELS then BACKGROUND else parse[i][j]
  {
  }

  /** Every unprotected pixel on the DensePose torso or arms is labelled
      upper-clothes: the closing (odd kernel) and the dilation both keep the
      surface mask. */
  lemma SurfaceCovered(parse: seq<seq<int>>, segm: seq<seq<int>>)
    requires Rectangular(parse) && Rectangular(segm) && SameShape(parse, segm)
    ensures forall i, j ::
      (0 <= i < |parse| && 0 <= j < Width(parse) &&
       segm[i][j] in SURFACE_CODES && parse[i][j] !in PRESERVE_LABELS) ==>
      Guidance(parse, segm)[i][j] == UPPER_CLOTHES
  {
    var surface := IsIn(segm, SURFACE_CODES);
    var closed := Close(surface, GUIDANCE_KERNEL_SIZE, CLOSE_ITERATIONS);
    CloseExtensive(surface, GUIDANCE_KERNEL_SIZE, CLOSE_ITERATIONS);
    DilateNExtensive(closed, GUIDANCE_KERNEL_SIZE, PAD_ITERATIONS);
    WithinTransitive(surface, closed, NeutralTarget(segm));
    forall i, j | 0 <= i < |parse| && 0 <= j < Width(parse) &&
      segm[i][j] in SURFACE_CODES && parse[i][j] !in PRESERVE_LABELS
      ensures NeutralTarget(segm)[i][j]
    {
      assert surface[i][j];
    }
  }
}
