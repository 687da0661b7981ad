/** Images of up to three axes in one flat buffer, the first axis running fastest. */
module Cubes {
  import opened Index

  /** The sizes of the axes; an axis that an image does not have has size 1. */
  datatype Shape = Shape(n0: nat, n1: nat, n2: nat) {
    function Count(): nat {
      n2 * n1 * n0
    }

    predicate Has(i: nat, j: nat, k: nat) {
      i < n0 && j < n1 && k < n2
    }

    function Size(axis: nat): nat
      requires axis < 3
    {
      if axis == 0 then n0 else if axis == 1 then n1 else n2
    }

    function Resized(axis: nat, n: nat): Shape
      requires axis < 3
    {
      if axis == 0 then Shape(n, n1, n2) else if axis == 1 then Shape(n0, n, n2) else Shape(n0, n1, n)
    }
  }

  /** The place of pixel (i, j, k). */
  function Flat(s: Shape, i: nat, j: nat, k: nat): nat {
    (k * s.n1 + j) * s.n0 + i
  }

  lemma {:induction false} FlatInside(s: Shape, i: nat, j: nat, k: nat)
    requires s.Has(i, j, k)
    ensures Flat(s, i, j, k) < s.Count()
  {
    InRow(k, j, s.n2, s.n1);
    InRow(k * s.n1 + j, i, s.n2 * s.n1, s.n0);
  }

  /** Different pixels have different places. */
  lemma {:induction false} FlatInjective(s: Shape, i: nat, j: nat, k: nat, i': nat, j': nat, k': nat)
    requires s.Has(i, j, k) && s.Has(i', j', k')
    ensures Flat(s, i, j, k) == Flat(s, i', j', k') <==> i == i' && j == j' && k == k'
  {
    if Flat(s, i, j, k) == Flat(s, i', j', k') {
      RowColumn(k * s.n1 + j, i, k' * s.n1 + j', i', s.n0);
      RowColumn(k, j, k', j', s.n1);
    }
  }

  /** Every place is the place of a pixel. */
  lemma {:induction false} FlatOnto(s: Shape, q: nat) returns (i: nat, j: nat, k: nat)
    requires q < s.Count()
    ensures s.Has(i, j, k) && q == Flat(s, i, j, k)
  {
    NonZero(s.n2 * s.n1, s.n0, q);
    var r := q / s.n0;
    i := q % s.n0;
    DivMod(q, s.n0);
    if r >= s.n2 * s.n1 { AtLeast(s.n2 * s.n1, r, s.n0); }
    NonZero(s.n2, s.n1, r);
    k, j := r / s.n1, r % s.n1;
    DivMod(r, s.n1);
    if k >= s.n2 { AtLeast(s.n2, k, s.n1); }
  }

  lemma {:induction false} NonZero(a: nat, n: nat, q: nat)
    requires q < a * n
    ensures n > 0
  {
  }

  lemma {:induction false} AtLeast(a: nat, b: nat, n: nat)
    requires a <= b
    ensures a * n <= b * n
  {
    if a < b { RowsApart(a, b, n); }
  }

  /** Pixel (i, j, k) comes before (x, y, z) in loops whose innermost one runs over the last axis. */
  predicate Earlier(i: int, j: int, k: int, x: int, y: int, z: int) {
    i < x || (i == x && (j < y || (j == y && k < z)))
  }

  /** An image. */
  datatype Image<+T> = Image(shape: Shape, pix: seq<T>) {
    ghost predicate Valid() {
      |pix| == shape.Count()
    }

    function At(i: nat, j: nat, k: nat): T
      requires Valid() && shape.Has(i, j, k)
    {
      FlatInside(shape, i, j, k);
      pix[Flat(shape, i, j, k)]
    }
  }

  /** Images with the same pixels are the same. */
  lemma {:induction false} SamePixels<T>(a: Image<T>, b: Image<T>)
    requires a.Valid() && b.Valid() && a.shape == b.shape
    requires forall i: nat, j: nat, k: nat :: a.shape.Has(i, j, k) ==> a.At(i, j, k) == b.At(i, j, k)
    ensures a == b
  {
    forall q | 0 <= q < |a.pix| ensures a.pix[q] == b.pix[q] {
      var i, j, k := FlatOnto(a.shape, q);
      assert a.At(i, j, k) == b.At(i, j, k);
    }
  }

  /** Setting one pixel. */
  lemma {:induction false} AtUpdate<T>(img: Image<T>, x: nat, y: nat, z: nat, v: T, i: nat, j: nat, k: nat)
    requires img.Valid() && img.shape.Has(x, y, z) && img.shape.Has(i, j, k)
    ensures Flat(img.shape, x, y, z) < |img.pix|
    ensures Image(img.shape, img.pix[Flat(img.shape, x, y, z) := v]).At(i, j, k) == if i == x && j == y && k == z then v else img.At(i, j, k)
  {
    FlatInside(img.shape, x, y, z);
    FlatInside(img.shape, i, j, k);
    FlatInjective(img.shape, i, j, k, x, y, z);
  }
}
