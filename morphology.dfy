/** Binary masks and the morphological operations the mask logic applies to
    them: label-set membership (`np.isin`), dilation and erosion with a square
    all-ones kernel (`cv2.dilate`, `cv2.erode`), their iterations and the
    closing `cv2.morphologyEx(.., cv2.MORPH_CLOSE, ..)`.

    A k x k kernel is anchored at (k/2, k/2), so the window of pixel (i, j)
    covers rows i - k/2 .. i - k/2 + k - 1 and the same columns around j.
    Dilation treats pixels outside the image as unset, erosion treats them as
    set (the constant border OpenCV uses for both by default). */
module Morphology {
  import opened Grids

  /** A binary mask: true where the 0/1 array holds 1. */
  type Mask = seq<seq<bool>>

  /** `a` is contained in `b`: same shape, and every pixel set in `a` is set in
      `b`. */
  predicate Within(a: Mask, b: Mask)
  {
    && |a| == |b|
    && (forall i :: 0 <= i < |a| ==> |a[i]| == |b[i]|)
    && (forall i, j :: 0 <= i < |a| && 0 <= j < |a[i]| && a[i][j] ==> b[i][j])
  }

  /** No pixel of the mask is set. */
  predicate Empty(m: Mask)
  {
    forall i, j :: 0 <= i < |m| && 0 <= j < |m[i]| ==> !m[i][j]
  }

  /** `np.isin(g, labels)`: the pixels whose value is one of `labels`. */
  function IsIn(g: seq<seq<int>>, labels: seq<int>): (m: Mask)
    requires Rectangular(g)
    ensures IsGrid(m, |g|, Width(g))
    ensures forall i, j :: 0 <= i < |g| && 0 <= j < Width(g) ==> (m[i][j] <==> g[i][j] in labels)
  {
    seq(|g|, i requires 0 <= i < |g| =>
      seq(Width(g), j requires 0 <= j < Width(g) => g[i][j] in labels))
  }

  /** `(a == 1) & (b == 0)`: the pixels set in `a` and not in `b`. */
  function Minus(a: Mask, b: Mask): (r: Mask)
    requires Rectangular(a) && IsGrid(b, |a|, Width(a))
    ensures IsGrid(r, |a|, Width(a))
    ensures forall i, j :: 0 <= i < |a| && 0 <= j < Width(a) ==> (r[i][j] <==> a[i][j] && !b[i][j])
  {
    seq(|a|, i requires 0 <= i < |a| =>
      seq(Width(a), j requires 0 <= j < Width(a) => a[i][j] && !b[i][j]))
  }

  /** Some pixel of the k x k window of (i, j) lies inside `m` and is set. */
  predicate Hit(m: Mask, i: int, j: int, k: int)
  {
    exists y, x :: i - k / 2 <= y < i - k / 2 + k && j - k / 2 <= x < j - k / 2 + k &&
      0 <= y < |m| && 0 <= x < |m[y]| && m[y][x]
  }

  /** Every pixel of the k x k window of (i, j) is set or lies outside `m`. */
  predicate Covered(m: Mask, i: int, j: int, k: int)
  {
    forall y, x ::
      (i - k / 2 <= y < i - k / 2 + k && j - k / 2 <= x < j - k / 2 + k &&
       0 <= y < |m| && 0 <= x < |m[y]|) ==> m[y][x]
  }

  /** `cv2.dilate(m, ones((k, k)), iterations=1)`. */
  function Dilate(m: Mask, k: int): (r: Mask)
    ensures IsGrid(r, |m|, Width(m))
    ensures forall i, j :: 0 <= i < |m| && 0 <= j < Width(m) ==> (r[i][j] <==> Hit(m, i, j, k))
  {
    seq(|m|, i => seq(Width(m), j => Hit(m, i, j, k)))
  }

  /** `cv2.erode(m, ones((k, k)), iterations=1)`. */
  function Erode(m: Mask, k: int): (r: Mask)
    ensures IsGrid(r, |m|, Width(m))
    ensures forall i, j :: 0 <= i < |m| && 0 <= j < Width(m) ==> (r[i][j] <==> Covered(m, i, j, k))
  {
    seq(|m|, i => seq(Width(m), j => Covered(m, i, j, k)))
  }

  /** `cv2.dilate(m, ones((k, k)), iterations=n)`: n dilations in a row. */
  function DilateN(m: Mask, k: int, n: nat): (r: Mask)
    requires Rectangular(m)
    ensures IsGrid(r, |m|, Width(m))
  {
    if n == 0 then m else Dilate(DilateN(m, k, n - 1), k)
  }

  /** `cv2.erode(m, ones((k, k)), iterations=n)`: n erosions in a row. */
  function ErodeN(m: Mask, k: int, n: nat): (r: Mask)
    requires Rectangular(m)
    ensures IsGrid(r, |m|, Width(m))
    decreases n
  {
    if n == 0 then m else ErodeN(Erode(m, k), k, n - 1)
  }

  /** `cv2.morphologyEx(m, cv2.MORPH_CLOSE, ones((k, k)), iterations=n)`:
      n dilations followed by n erosions. */
  function Close(m: Mask, k: int, n: nat): (r: Mask)
    requires Rectangular(m)
    ensures IsGrid(r, |m|, Width(m))
  {
    ErodeN(DilateN(m, k, n), k, n)
  }

  lemma {:induction false} WithinTransitive(a: Mask, b: Mask, c: Mask)
    requires Within(a, b) && Within(b, c)
    ensures Within(a, c)
  {
    forall i, j | 0 <= i < |a| && 0 <= j < |a[i]| && a[i][j]
      ensures c[i][j]
    {
      assert b[i][j];
    }
  }

  /** Dilation with a kernel of size at least 1 keeps every set pixel: the
      window of a pixel contains the pixel itself. */
  lemma DilateExtensive(m: Mask, k: int)
    requires Rectangular(m) && k >= 1
    ensures Within(m, Dilate(m, k))
  {
    forall i, j | 0 <= i < |m| && 0 <= j < |m[i]| && m[i][j]
      ensures Hit(m, i, j, k)
    {
      assert i - k / 2 <= i < i - k / 2 + k && j - k / 2 <= j < j - k / 2 + k;
    }
  }

  /** Dilation is monotone in the mask. */
  lemma DilateMonotone(a: Mask, b: Mask, k: int)
    requires Rectangular(a) && Within(a, b) && IsGrid(b, |a|, Width(a))
    ensures Within(Dilate(a, k), Dilate(b, k))
  {
    forall i, j | 0 <= i < |a| && 0 <= j < Width(a) && Hit(a, i, j, k)
      ensures Hit(b, i, j, k)
    {
      var y, x :| i - k / 2 <= y < i - k / 2 + k && j - k / 2 <= x < j - k / 2 + k &&
        0 <= y < |a| && 0 <= x < |a[y]| && a[y][x];
      assert b[y][x];
    }
  }

  /** Dilation is monotone in the kernel size: the k1 window of a pixel lies
      inside its k2 window whenever k1 <= k2. */
  lemma DilateKernelMonotone(m: Mask, k1: int, k2: int)
    requires 0 <= k1 <= k2
    ensures Within(Dilate(m, k1), Dilate(m, k2))
  {
    forall i, j | 0 <= i < |m| && 0 <= j < Width(m) && Hit(m, i, j, k1)
      ensures Hit(m, i, j, k2)
    {
      var y, x :| i - k1 / 2 <= y < i - k1 / 2 + k1 && j - k1 / 2 <= x < j - k1 / 2 + k1 &&
        0 <= y < |m| && 0 <= x < |m[y]| && m[y][x];
      assert i - k2 / 2 <= y < i - k2 / 2 + k2 && j - k2 / 2 <= x < j - k2 / 2 + k2;
    }
  }

  /** Dilating a mask with no set pixel sets nothing. */
  lemma DilateEmpty(m: Mask, k: int)
    requires Empty(m)
    ensures Empty(Dilate(m, k))
  {
    forall i, j | 0 <= i < |m| && 0 <= j < Width(m)
      ensures !Hit(m, i, j, k)
    {
    }
  }

  /** Erosion is monotone in the mask. */
  lemma ErodeMonotone(a: Mask, b: Mask, k: int)
    requires Rectangular(a) && Within(a, b) && IsGrid(b, |a|, Width(a))
    ensures Within(Erode(a, k), Erode(b, k))
  {
    forall i, j | 0 <= i < |a| && 0 <= j < Width(a) && Covered(a, i, j, k)
      ensures Covered(b, i, j, k)
    {
      forall y, x | i - k / 2 <= y < i - k / 2 + k && j - k / 2 <= x < j - k / 2 + k &&
        0 <= y < |b| && 0 <= x < |b[y]|
        ensures b[y][x]
      {
        assert a[y][x];
      }
    }
  }

  /** With an odd kernel, a dilation followed by an erosion keeps every set
      pixel: each pixel of the window of (i, j) has (i, j) in its own window. */
  lemma ErodeDilateExtensive(m: Mask, k: int)
    requires Rectangular(m) && k >= 1 && k % 2 == 1
    ensures Within(m, Erode(Dilate(m, k), k))
  {
    var d := Dilate(m, k);
    forall i, j | 0 <= i < |m| && 0 <= j < |m[i]| && m[i][j]
      ensures Covered(d, i, j, k)
    {
      forall y, x | i - k / 2 <= y < i - k / 2 + k && j - k / 2 <= x < j - k / 2 + k &&
        0 <= y < |d| && 0 <= x < |d[y]|
        ensures d[y][x]
      {
        assert y - k / 2 <= i < y - k / 2 + k && x - k / 2 <= j < x - k / 2 + k;
        assert Hit(m, y, x, k);
      }
    }
  }

  /** Iterated dilation keeps every set pixel. */
  lemma {:induction false} DilateNExtensive(m: Mask, k: int, n: nat)
    requires Rectangular(m) && k >= 1
    ensures Within(m, DilateN(m, k, n))
  {
    if n > 0 {
      var prev := DilateN(m, k, n - 1);
      DilateNExtensive(m, k, n - 1);
      DilateExtensive(prev, k);
      WithinTransitive(m, prev, DilateN(m, k, n));
    }
  }

  /** Iterated erosion is monotone in the mask. */
  lemma {:induction false} ErodeNMonotone(a: Mask, b: Mask, k: int, n: nat)
    requires Rectangular(a) && Within(a, b) && IsGrid(b, |a|, Width(a))
    ensures Within(ErodeN(a, k, n), ErodeN(b, k, n))
    decreases n
  {
    if n > 0 {
      ErodeMonotone(a, b, k);
      ErodeNMonotone(Erode(a, k), Erode(b, k), k, n - 1);
    }
  }

  /** With an odd kernel, closing keeps every set pixel (it only fills gaps). */
  lemma {:induction false} CloseExtensive(m: Mask, k: int, n: nat)
    requires Rectangular(m) && k >= 1 && k % 2 == 1
    ensures Within(m, Close(m, k, n))
  {
    if n > 0 {
      var prev := DilateN(m, k, n - 1);
      // Close(m, k, n) == ErodeN(Erode(Dilate(prev, k), k), k, n - 1)
      CloseExtensive(m, k, n - 1);
      ErodeDilateExtensive(prev, k);
      ErodeNMonotone(prev, Erode(Dilate(prev, k), k), k, n - 1);
      WithinTransitive(m, ErodeN(prev, k, n - 1), Close(m, k, n));
    }
  }
}
