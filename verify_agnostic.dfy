/** The earlier agnostic-person variant (src/verify_agnostic.py, lines 8-35).

    It differs from AgnosticLogic.GetAgnosticPerson in two ways: a parse array
    with a channel axis is reduced to its first channel, and the gray region is
    the whole dilated agnostic mask, with no protected pixels taken out. */
module VerifyAgnostic {
  import opened Grids
  import opened Morphology
  import opened Lip
  import AgnosticLogic

  /** A decoded parse array: a two-dimensional index map, or an H x W x C
      array, given here as its C channel planes of H x W each. */
  datatype ParseArray = Indices(labels: seq<seq<int>>) | Channels(planes: seq<seq<seq<int>>>)

  /** Every plane is rectangular and all planes share one shape. */
  predicate WellFormed(p: ParseArray)
  {
    match p
    case Indices(g) => Rectangular(g)
    case Channels(ps) => forall c :: 0 <= c < |ps| ==> Rectangular(ps[c]) && SameShape(ps[c], ps[0])
  }

  /** `parse[:, :, 0]` when the array has a channel axis, the array itself
      otherwise; indexing channel 0 of an array without channels fails. */
  function FirstChannel(p: ParseArray): (r: Result<seq<seq<int>>>)
    requires WellFormed(p)
    ensures r.Success? ==> Rectangular(r.value)
  {
    match p
    case Indices(g) => Success(g)
    case Channels(ps) => if |ps| == 0 then Failure(NoChannel) else Success(ps[0])
  }

  /** The gray region of this variant: the dilated agnostic mask itself. */
  function GrayRegion(labels: seq<seq<int>>, k: int): (m: Mask)
    requires Rectangular(labels)
    ensures IsGrid(m, |labels|, Width(labels))
  {
    Dilate(AgnosticLogic.AgnosticMask(labels), k)
  }

  /** The agnostic image of this variant. */
  function AgnosticImage(image: seq<seq<Rgb>>, labels: seq<seq<int>>, k: int): (r: seq<seq<Rgb>>)
    requires Rectangular(image) && Rectangular(labels) && SameShape(image, labels)
    ensures IsGrid(r, |image|, Width(image))
  {
    Overwrite(image, GrayRegion(labels, k), AgnosticLogic.GRAY)
  }

  /** What `get_agnostic_person` of this variant returns: the agnostic image
      and the cleared label map of the first channel, or why it fails. */
  function Agnostic(image: seq<seq<Rgb>>, parse: ParseArray, k: int): (r: Result<(seq<seq<Rgb>>, seq<seq<int>>)>)
    requires Rectangular(image) && WellFormed(parse)
    ensures r.Success? <==>
      FirstChannel(parse).Success? && !NoPixels(FirstChannel(parse).value) &&
      SameShape(image, FirstChannel(parse).value)
    ensures r.Success? ==>
      IsGrid(r.value.0, |image|, Width(image)) && IsGrid(r.value.1, |image|, Width(image))
  {
    match FirstChannel(parse)
    case Failure(e) => Failure(e)
    case Success(labels) =>
      if NoPixels(labels) then Failure(EmptyArray)
      else if SameShape(image, labels)
      then Success((AgnosticImage(image, labels, k), AgnosticLogic.AgnosticParse(labels)))
      else Failure(ShapeMismatch)
  }

  /** `get_agnostic_person` of this variant on decoded arrays: take the first
      channel of a parse array with a channel axis, build the mask and its
      dilation, then paint and clear on copies, in place. */
  method GetAgnosticPerson(image: seq<seq<Rgb>>, parse: ParseArray, k: int)
    returns (res: Result<(seq<seq<Rgb>>, seq<seq<int>>)>)
    requires Rectangular(image) && WellFormed(parse) && k >= 1
    ensures res == Agnostic(image, parse, k)
  {
    var labels: seq<seq<int>>;
    match parse {
      case Indices(g) =>
        labels := g;
      case Channels(ps) =>
        if |ps| == 0 {
          return Failure(NoChannel);
        }
        labels := ps[0];
    }
    var mask := IsIn(labels, AGNOSTIC_LABELS);
    if NoPixels(mask) {
      return Failure(EmptyArray);
    }
    var dilatedMask := Dilate(mask, k);
    if !SameShape(image, labels) {
      return Failure(ShapeMismatch);
    }
    var agnosticImg := Copy(image);
    Assign(agnosticImg, dilatedMask, AgnosticLogic.GRAY);
    var agnosticParse := Copy(labels);
    Assign(agnosticParse, mask, BACKGROUND);
    res := Success((Snapshot(agnosticImg), Snapshot(agnosticParse)));
  }

  /** A parse array with a channel axis is handled as its first channel: the
      result is that of the two-dimensional first plane, and a successful
      result has a label map of the image's height and width. An array without
      channels fails. */
  lemma FirstChannelOnly(image: seq<seq<Rgb>>, planes: seq<seq<seq<int>>>, k: int)
    requires Rectangular(image) && WellFormed(Channels(planes))
    ensures |planes| == 0 ==> Agnostic(image, Channels(planes), k) == Failure(NoChannel)
    ensures |planes| > 0 ==> Agnostic(image, Channels(planes), k) == Agnostic(image, Indices(planes[0]), k)
    ensures |planes| > 0 && !NoPixels(planes[0]) && SameShape(image, planes[0]) ==>
      Agnostic(image, Channels(planes), k).Success? &&
      IsGrid(Agnostic(image, Channels(planes), k).value.1, |image|, Width(image))
  {
  }

  /** The returned label map is the first channel with every garment or arm
      label set to background and every other label kept. */
  lemma LabelMapCleared(image: seq<seq<Rgb>>, parse: ParseArray, k: int)
    requires Rectangular(image) && WellFormed(parse)
    requires Agnostic(image, parse, k).Success?
    ensures var labels, r := FirstChannel(parse).value, Agnostic(image, parse, k).value.1;
      && IsGrid(r, |labels|, Width(labels))
      && (forall i, j :: 0 <= i < |labels| && 0 <= j < Width(labels) ==> r[i][j] !in AGNOSTIC_LABELS)
      && (forall i, j :: 0 <= i < |labels| && 0 <= j < Width(labels) && labels[i][j] in AGNOSTIC_LABELS ==>
            r[i][j] == BACKGROUND)
      && (forall i, j :: 0 <= i < |labels| && 0 <= j < Width(labels) && labels[i][j] !in AGNOSTIC_LABELS ==>
            r[i][j] == labels[i][j])
  {
    AgnosticLogic.ParseCleared(FirstChannel(parse).value);
  }

  /** A pixel is painted gray exactly when its window holds a garment or arm
      label, whatever its own label; every other pixel keeps its colour. */
  lemma GrayExactlyNearAgnostic(image: seq<seq<Rgb>>, labels: seq<seq<int>>, k: int)
    requires Rectangular(image) && Rectangular(labels) && SameShape(image, labels)
    ensures forall i, j :: 0 <= i < |image| && 0 <= j < Width(image) ==>
      AgnosticImage(image, labels, k)[i][j] ==
        if AgnosticLogic.NearAgnostic(labels, i, j, k) then AgnosticLogic.GRAY else image[i][j]
  {
    AgnosticLogic.DilatedMaskIsNearAgnostic(labels, k);
  }

  /** Every garment or arm pixel is gray, and every pixel outside the dilated
      mask keeps its colour. */
  lemma AgnosticPixelsGray(image: seq<seq<Rgb>>, labels: seq<seq<int>>, k: int)
    requires Rectangular(image) && Rectangular(labels) && SameShape(image, labels) && k >= 1
    ensures forall i, j :: 0 <= i < |image| && 0 <= j < Width(image) && labels[i][j] in AGNOSTIC_LABELS ==>
      AgnosticImage(image, labels, k)[i][j] == AgnosticLogic.GRAY
    ensures forall i, j :: 0 <= i < |image| && 0 <= j < Width(image) && !GrayRegion(labels, k)[i][j] ==>
      AgnosticImage(image, labels, k)[i][j] == image[i][j]
  {
    var m := AgnosticLogic.AgnosticMask(labels);
    DilateExtensive(m, k);
    forall i, j | 0 <= i < |image| && 0 <= j < Width(image) && labels[i][j] in AGNOSTIC_LABELS
      ensures GrayRegion(labels, k)[i][j]
    {
      assert m[i][j];
    }
  }

  /** This variant grays at least what AgnosticLogic grays, and also grays
      protected pixels (face, hair, ...) whose window holds a garment or arm
      label, which AgnosticLogic leaves untouched. */
  lemma GraysProtectedPixels(image: seq<seq<Rgb>>, labels: seq<seq<int>>, k: int)
    requires Rectangular(image) && Rectangular(labels) && SameShape(image, labels)
    ensures Within(AgnosticLogic.EraseRegion(labels, k), GrayRegion(labels, k))
    ensures forall i, j ::
      (0 <= i < |image| && 0 <= j < Width(image) &&
       labels[i][j] in PRESERVE_LABELS && AgnosticLogic.NearAgnostic(labels, i, j, k)) ==>
      AgnosticImage(image, labels, k)[i][j] == AgnosticLogic.GRAY &&
      AgnosticLogic.AgnosticImage(image, labels, k)[i][j] == image[i][j]
  {
    GrayExactlyNearAgnostic(image, labels, k);
    AgnosticLogic.ProtectedPixelsKept(image, labels, k);
  }

  /** An input without garment or arm labels comes back unchanged (an input
      without pixels is refused by the dilation). */
  lemma NoAgnosticLabelsUnchanged(image: seq<seq<Rgb>>, labels: seq<seq<int>>, k: int)
    requires Rectangular(image) && Rectangular(labels) && SameShape(image, labels)
    requires forall i, j :: 0 <= i < |labels| && 0 <= j < Width(labels) ==> labels[i][j] !in AGNOSTIC_LABELS
    ensures Agnostic(image, Indices(labels), k) ==
      if NoPixels(labels) then Failure(EmptyArray) else Success((image, labels))
  {
    DilateEmpty(AgnosticLogic.AgnosticMask(labels), k);
    GridExtensionality(AgnosticImage(image, labels, k), image, |image|, Width(image));
    AgnosticLogic.NoAgnosticLabelsUnchanged(image, labels, k);
  }
}
