/** Slice normalisation in terms of the pixels of one slice and of the mask, their coordinates written out. */
module SliceSums {
  import opened Cubes
  import opened SliceNormalize

  /** The pixel of slice c with the coordinates a and b along the other two axes, in order. */
  function InSlice(axis: nat, c: nat, a: nat, b: nat): Pixel {
    if axis == 0 then Pixel(c, a, b) else if axis == 1 then Pixel(a, c, b) else Pixel(a, b, c)
  }

  /** How many pixels a slice has along the first and the second of the other axes. */
  function Rows(s: Shape, axis: nat): nat {
    if axis == 0 then s.n1 else s.n0
  }

  function Columns(s: Shape, axis: nat): nat {
    if axis == 2 then s.n1 else s.n2
  }

  ghost function PixelAt(img: Image<real>, p: Pixel): real {
    if img.Valid() && img.shape.Has(p.i, p.j, p.k) then img.At(p.i, p.j, p.k) else 0.0
  }

  /** The sum of f over row a, up to column n, and over the first m rows. */
  ghost function RowSum(f: (nat, nat) -> real, a: nat, n: nat): real {
    if n == 0 then 0.0 else RowSum(f, a, n - 1) + f(a, n - 1)
  }

  ghost function Total(f: (nat, nat) -> real, m: nat, n: nat): real {
    if m == 0 then 0.0 else Total(f, m - 1, n) + RowSum(f, m - 1, n)
  }

  ghost function ProductSquared(m: real, v: real): real {
    (m * v) * (m * v)
  }

  /** The square of mask pixel times image pixel: the mask is the same in every slice. */
  ghost function EnergyTerm(img: Image<real>, mask: Image<real>, axis: nat, c: nat): (nat, nat) -> real {
    (a: nat, b: nat) => ProductSquared(PixelAt(mask, InSlice(axis, 0, a, b)), PixelAt(img, InSlice(axis, c, a, b)))
  }

  ghost function WeightTerm(mask: Image<real>, axis: nat): (nat, nat) -> real {
    (a: nat, b: nat) => PixelAt(mask, InSlice(axis, 0, a, b))
  }

  /** g is f on slice c. */
  ghost predicate OnSlice(s: Shape, axis: nat, f: Pixel -> real, c: nat, g: (nat, nat) -> real) {
    forall a: nat, b: nat :: a < Rows(s, axis) && b < Columns(s, axis) ==> g(a, b) == f(InSlice(axis, c, a, b))
  }

  // ----- the sum over the triple loop is the sum over the slice

  lemma {:induction false} Sum0(s: Shape, f: Pixel -> real, c: nat, g: (nat, nat) -> real, i: nat, j: nat, k: nat)
    requires c < s.n0 && OnSlice(s, 0, f, c, g)
    requires i <= s.n0 && j <= s.n1 && k <= s.n2 && (k > 0 ==> j < s.n1) && (j > 0 || k > 0 ==> i < s.n0)
    ensures Sum(s, 0, f, c, i, j, k) ==
            if i > c then Total(g, s.n1, s.n2) else if i == c then Total(g, j, s.n2) + RowSum(g, j, k) else 0.0
    decreases i, j, k
  {
    if k > 0 {
      Sum0(s, f, c, g, i, j, k - 1);
      if i == c { assert g(j, k - 1) == f(InSlice(0, c, j, k - 1)); }
    } else if j > 0 {
      Sum0(s, f, c, g, i, j - 1, s.n2);
    } else if i > 0 {
      Sum0(s, f, c, g, i - 1, s.n1, 0);
    }
  }

  lemma {:induction false} Sum1(s: Shape, f: Pixel -> real, c: nat, g: (nat, nat) -> real, i: nat, j: nat, k: nat)
    requires c < s.n1 && OnSlice(s, 1, f, c, g)
    requires i <= s.n0 && j <= s.n1 && k <= s.n2 && (k > 0 ==> j < s.n1) && (j > 0 || k > 0 ==> i < s.n0)
    ensures Sum(s, 1, f, c, i, j, k) ==
            Total(g, i, s.n2) + if j > c then RowSum(g, i, s.n2) else if j == c then RowSum(g, i, k) else 0.0
    decreases i, j, k
  {
    if k > 0 {
      Sum1(s, f, c, g, i, j, k - 1);
      if j == c { assert g(i, k - 1) == f(InSlice(1, c, i, k - 1)); }
    } else if j > 0 {
      Sum1(s, f, c, g, i, j - 1, s.n2);
    } else if i > 0 {
      Sum1(s, f, c, g, i - 1, s.n1, 0);
    }
  }

  lemma {:induction false} Sum2(s: Shape, f: Pixel -> real, c: nat, g: (nat, nat) -> real, i: nat, j: nat, k: nat)
    requires c < s.n2 && OnSlice(s, 2, f, c, g)
    requires i <= s.n0 && j <= s.n1 && k <= s.n2 && (k > 0 ==> j < s.n1) && (j > 0 || k > 0 ==> i < s.n0)
    ensures Sum(s, 2, f, c, i, j, k) == Total(g, i, s.n1) + RowSum(g, i, j) + if k > c then g(i, j) else 0.0
    decreases i, j, k
  {
    if k > 0 {
      Sum2(s, f, c, g, i, j, k - 1);
      if k - 1 == c { assert g(i, j) == f(InSlice(2, c, i, j)); }
    } else if j > 0 {
      Sum2(s, f, c, g, i, j - 1, s.n2);
    } else if i > 0 {
      Sum2(s, f, c, g, i - 1, s.n1, 0);
    }
  }

  lemma {:induction false} SliceSumIsTotal(s: Shape, axis: nat, f: Pixel -> real, c: nat, g: (nat, nat) -> real)
    requires axis < 3 && c < s.Size(axis) && OnSlice(s, axis, f, c, g)
    ensures SliceSum(s, axis, f, c) == Total(g, Rows(s, axis), Columns(s, axis))
  {
    if axis == 0 {
      Sum0(s, f, c, g, s.n0, 0, 0);
    } else if axis == 1 {
      Sum1(s, f, c, g, s.n0, 0, 0);
    } else {
      Sum2(s, f, c, g, s.n0, 0, 0);
    }
  }

  /** What one pixel of the slice contributes. */
  lemma {:induction false} TermsAre(img: Image<real>, mask: Image<real>, axis: nat, c: nat, a: nat, b: nat)
    requires axis < 3 && img.Valid() && mask.Valid() && mask.shape == MaskShape(img.shape, axis) && c < img.shape.Size(axis)
    requires a < Rows(img.shape, axis) && b < Columns(img.shape, axis)
    ensures EnergyTerm(img, mask, axis, c)(a, b) == EnergyOf(img, mask, axis)(InSlice(axis, c, a, b))
    ensures WeightTerm(mask, axis)(a, b) == WeightOf(mask, axis)(InSlice(axis, c, a, b))
  {
    var p, q := InSlice(axis, c, a, b), InSlice(axis, 0, a, b);
    assert img.shape.Has(p.i, p.j, p.k) && mask.shape.Has(q.i, q.j, q.k);
    assert MaskAt(mask, axis, p.i, p.j, p.k) == PixelAt(mask, q);
    assert Masked(img, mask, axis, p) == PixelAt(mask, q) * PixelAt(img, p);
  }

  /** The energy and the weight of a slice, added up pixel by pixel. */
  lemma {:induction false} EnergyIsTotal(img: Image<real>, mask: Image<real>, axis: nat, c: nat)
    requires axis < 3 && img.Valid() && mask.Valid() && mask.shape == MaskShape(img.shape, axis) && c < img.shape.Size(axis)
    ensures Energy(img, mask, axis, c) == Total(EnergyTerm(img, mask, axis, c), Rows(img.shape, axis), Columns(img.shape, axis))
    ensures Weight(img.shape, mask, axis, c) == Total(WeightTerm(mask, axis), Rows(img.shape, axis), Columns(img.shape, axis))
  {
    forall a: nat, b: nat | a < Rows(img.shape, axis) && b < Columns(img.shape, axis)
      ensures EnergyTerm(img, mask, axis, c)(a, b) == EnergyOf(img, mask, axis)(InSlice(axis, c, a, b))
      ensures WeightTerm(mask, axis)(a, b) == WeightOf(mask, axis)(InSlice(axis, c, a, b))
    {
      TermsAre(img, mask, axis, c, a, b);
    }
    SliceSumIsTotal(img.shape, axis, EnergyOf(img, mask, axis), c, EnergyTerm(img, mask, axis, c));
    SliceSumIsTotal(img.shape, axis, WeightOf(mask, axis), c, WeightTerm(mask, axis));
  }

  /** Main result: when mask pixel times image pixel, squared, adds up to something positive over slice c, and the mask too,
      every pixel of the slice is divided by one positive number, and afterwards that sum is 1, or in RMS mode the sum of
      the mask.  The mask pixel is the one with coordinate 0 along the slice axis. */
  lemma {:induction false} SliceNormalized(ar: Arithmetic, img: Image<real>, mask: Image<real>, axis: nat, modeRMS: bool, out: Image<real>, c: nat)
    returns (n: real)
    requires ar.Valid() && IsNormalized(ar, img, mask, axis, modeRMS, out) && mask.shape == MaskShape(img.shape, axis)
    requires c < img.shape.Size(axis)
    requires Total(EnergyTerm(img, mask, axis, c), Rows(img.shape, axis), Columns(img.shape, axis)) > 0.0
    requires Total(WeightTerm(mask, axis), Rows(img.shape, axis), Columns(img.shape, axis)) > 0.0
    ensures Total(EnergyTerm(out, mask, axis, c), Rows(img.shape, axis), Columns(img.shape, axis)) ==
            if modeRMS then Total(WeightTerm(mask, axis), Rows(img.shape, axis), Columns(img.shape, axis)) else 1.0
    ensures n > 0.0 && forall a: nat, b: nat :: a < Rows(img.shape, axis) && b < Columns(img.shape, axis) ==>
                         PixelAt(out, InSlice(axis, c, a, b)) == PixelAt(img, InSlice(axis, c, a, b)) / n
  {
    EnergyIsTotal(img, mask, axis, c);
    EnergyIsTotal(out, mask, axis, c);
    NormalizedEnergy(ar, img, mask, axis, modeRMS, out, c);
    var d;
    n, d := NormSquared(ar, Energy(img, mask, axis, c), Weight(img.shape, mask, axis, c), modeRMS);
    forall a: nat, b: nat | a < Rows(img.shape, axis) && b < Columns(img.shape, axis)
      ensures PixelAt(out, InSlice(axis, c, a, b)) == PixelAt(img, InSlice(axis, c, a, b)) / n
    {
      var p := InSlice(axis, c, a, b);
      assert img.shape.Has(p.i, p.j, p.k) && Coord(axis, p.i, p.j, p.k) == c;
      assert out.At(p.i, p.j, p.k) == ar.div(img.At(p.i, p.j, p.k), SliceNorm(ar, img, mask, axis, modeRMS, c));
    }
  }

  /** A slice without energy under the mask is divided by zero. */
  lemma {:induction false} EmptySlice(ar: Arithmetic, img: Image<real>, mask: Image<real>, axis: nat, modeRMS: bool, out: Image<real>, c: nat, a: nat, b: nat)
    requires ar.Valid() && IsNormalized(ar, img, mask, axis, modeRMS, out) && mask.shape == MaskShape(img.shape, axis)
    requires c < img.shape.Size(axis) && a < Rows(img.shape, axis) && b < Columns(img.shape, axis)
    requires Total(EnergyTerm(img, mask, axis, c), Rows(img.shape, axis), Columns(img.shape, axis)) == 0.0
    requires Total(WeightTerm(mask, axis), Rows(img.shape, axis), Columns(img.shape, axis)) > 0.0
    ensures PixelAt(out, InSlice(axis, c, a, b)) == ar.div(PixelAt(img, InSlice(axis, c, a, b)), 0.0)
  {
    EnergyIsTotal(img, mask, axis, c);
    var p := InSlice(axis, c, a, b);
    assert img.shape.Has(p.i, p.j, p.k) && Coord(axis, p.i, p.j, p.k) == c;
    assert out.At(p.i, p.j, p.k) == ar.div(img.At(p.i, p.j, p.k), SliceNorm(ar, img, mask, axis, modeRMS, c));
    ZeroNorm(ar, Weight(img.shape, mask, axis, c), modeRMS);
  }

  lemma {:induction false} ZeroNorm(ar: Arithmetic, weight: real, modeRMS: bool)
    requires ar.Valid() && weight > 0.0
    ensures Norm(ar, 0.0, weight, modeRMS) == 0.0
  {
    assert ar.div(0.0, weight) == 0.0 / weight == 0.0;
  }
}
