/** Rectangular two-dimensional grids (decoded label maps, masks and RGB
    images), and the two array primitives the mask logic is built from:
    `x.copy()` and the masked assignment `x[mask] = v`. */
module Grids {

  /** One 8-bit channel value. */
  type Byte = b: int | 0 <= b < 256

  /** One pixel of an H x W x 3 RGB image. */
  datatype Rgb = Rgb(r: Byte, g: Byte, b: Byte)

  /** Why an operation fails: a mask whose shape differs from the array it
      indexes (NumPy's boolean-index IndexError), a channel index into an
      array without channels, or an array without pixels handed to OpenCV's
      morphology (which refuses empty images). */
  datatype Error = ShapeMismatch | NoChannel | EmptyArray

  datatype Result<T> = Success(value: T) | Failure(error: Error)

  /** Number of columns of a grid (0 for a grid without rows). */
  function Width<T>(g: seq<seq<T>>): nat
  {
    if |g| == 0 then 0 else |g[0]|
  }

  /** `g` has `h` rows of `w` cells each. */
  predicate IsGrid<T>(g: seq<seq<T>>, h: int, w: int)
  {
    |g| == h && forall i :: 0 <= i < |g| ==> |g[i]| == w
  }

  /** Every row of `g` is as long as the first one, as in a NumPy array. */
  predicate Rectangular<T>(g: seq<seq<T>>)
  {
    IsGrid(g, |g|, Width(g))
  }

  /** A grid with no pixels: no rows, or rows without columns. */
  predicate NoPixels<T>(g: seq<seq<T>>)
  {
    |g| == 0 || Width(g) == 0
  }

  /** Two grids with the same height and width. */
  predicate SameShape<T, U>(a: seq<seq<T>>, b: seq<seq<U>>)
  {
    |a| == |b| && Width(a) == Width(b)
  }

  /** Two rectangular grids of one shape that agree at every cell are equal. */
  lemma GridExtensionality<T>(a: seq<seq<T>>, b: seq<seq<T>>, h: int, w: int)
    requires IsGrid(a, h, w) && IsGrid(b, h, w)
    requires forall i, j :: 0 <= i < h && 0 <= j < w ==> a[i][j] == b[i][j]
    ensures a == b
  {
    forall i | 0 <= i < h
      ensures a[i] == b[i]
    {
      assert forall j :: 0 <= j < w ==> a[i][j] == b[i][j];
    }
  }

  /** The value of `x[mask] = v` applied to a copy of `g`: cells under the mask
      become `v`, all others keep their value. */
  function Overwrite<T>(g: seq<seq<T>>, mask: seq<seq<bool>>, v: T): (r: seq<seq<T>>)
    requires Rectangular(g) && IsGrid(mask, |g|, Width(g))
    ensures IsGrid(r, |g|, Width(g))
    ensures forall i, j :: 0 <= i < |g| && 0 <= j < Width(g) ==>
      r[i][j] == if mask[i][j] then v else g[i][j]
  {
    seq(|g|, i requires 0 <= i < |g| =>
      seq(Width(g), j requires 0 <= j < Width(g) => if mask[i][j] then v else g[i][j]))
  }

  /** The contents of a two-dimensional array, row by row. */
  function Snapshot<T>(a: array2<T>): (g: seq<seq<T>>)
    reads a
    ensures IsGrid(g, a.Length0, a.Length1)
    ensures forall i, j :: 0 <= i < a.Length0 && 0 <= j < a.Length1 ==> g[i][j] == a[i, j]
  {
    seq(a.Length0, i reads a requires 0 <= i < a.Length0 =>
      seq(a.Length1, j reads a requires 0 <= j < a.Length1 => a[i, j]))
  }

  /** `g.copy()`: a fresh array holding the cells of `g`. */
  method Copy<T>(g: seq<seq<T>>) returns (a: array2<T>)
    requires Rectangular(g)
    ensures fresh(a)
    ensures a.Length0 == |g| && a.Length1 == Width(g)
    ensures Snapshot(a) == g
  {
    a := new T[|g|, Width(g)]((i, j) requires 0 <= i < |g| && 0 <= j < Width(g) => g[i][j]);
    GridExtensionality(Snapshot(a), g, |g|, Width(g));
  }

  /** `a[mask] = v`, in place: every cell under the mask is set to `v`, one
      cell at a time, row by row. */
  method Assign<T>(a: array2<T>, mask: seq<seq<bool>>, v: T)
    requires IsGrid(mask, a.Length0, a.Length1)
    modifies a
    ensures Snapshot(a) == Overwrite(old(Snapshot(a)), mask, v)
  {
    ghost var before := Snapshot(a);
    var i := 0;
    while i < a.Length0
      invariant 0 <= i <= a.Length0
      invariant forall y, x :: 0 <= y < i && 0 <= x < a.Length1 ==>
        a[y, x] == if mask[y][x] then v else before[y][x]
      invariant forall y, x :: i <= y < a.Length0 && 0 <= x < a.Length1 ==> a[y, x] == before[y][x]
    {
      var j := 0;
      while j < a.Length1
        invariant 0 <= j <= a.Length1
        invariant forall y, x :: 0 <= y < i && 0 <= x < a.Length1 ==>
          a[y, x] == if mask[y][x] then v else before[y][x]
        invariant forall x :: 0 <= x < j ==> a[i, x] == if mask[i][x] then v else before[i][x]
        invariant forall y, x :: i <= y < a.Length0 && 0 <= x < a.Length1 && (y > i || x >= j) ==>
          a[y, x] == before[y][x]
      {
        if mask[i][j] {
          a[i, j] := v;
        }
        j := j + 1;
      }
      i := i + 1;
    }
    GridExtensionality(Snapshot(a), Overwrite(before, mask, v), a.Length0, a.Length1);
  }
}
