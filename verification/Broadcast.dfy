/** A function of two images, pixel by pixel; an axis along which one image has a single pixel is
    stretched to the size of the other. */
module Broadcast {
  import opened Cubes

  /** Sizes that go together, and the size of the output. */
  predicate FitAxis(n: nat, m: nat) {
    n == m || n == 1 || m == 1
  }

  function OutAxis(n: nat, m: nat): nat {
    if n != m && n == 1 then m else n
  }

  predicate Fit(s: Shape, t: Shape) {
    FitAxis(s.n0, t.n0) && FitAxis(s.n1, t.n1) && FitAxis(s.n2, t.n2)
  }

  function OutShape(s: Shape, t: Shape): Shape {
    Shape(OutAxis(s.n0, t.n0), OutAxis(s.n1, t.n1), OutAxis(s.n2, t.n2))
  }

  /** The coordinate in an input of size n; m is the size of the other one. */
  function Held(i: nat, n: nat, m: nat): nat {
    if n != m && n == 1 then 0 else i
  }

  /** The pixel of s that goes with output pixel (i, j, k). */
  function Source(s: Shape, t: Shape, i: nat, j: nat, k: nat): nat {
    Flat(s, Held(i, s.n0, t.n0), Held(j, s.n1, t.n1), Held(k, s.n2, t.n2))
  }

  /** Every mapped pixel is within its input. */
  lemma {:induction false} SourceInside(s: Shape, t: Shape, i: nat, j: nat, k: nat)
    requires Fit(s, t) && OutShape(s, t).Has(i, j, k)
    ensures s.Has(Held(i, s.n0, t.n0), Held(j, s.n1, t.n1), Held(k, s.n2, t.n2)) && Source(s, t, i, j, k) < s.Count()
    ensures t.Has(Held(i, t.n0, s.n0), Held(j, t.n1, s.n1), Held(k, t.n2, s.n2)) && Source(t, s, i, j, k) < t.Count()
  {
    FlatInside(s, Held(i, s.n0, t.n0), Held(j, s.n1, t.n1), Held(k, s.n2, t.n2));
    FlatInside(t, Held(i, t.n0, s.n0), Held(j, t.n1, s.n1), Held(k, t.n2, s.n2));
  }

  /** out is f of the two images, each held at 0 along the axes where it is stretched. */
  ghost predicate IsBroadcast<A, B, C>(a: Image<A>, b: Image<B>, f: (A, B) -> C, out: Image<C>) {
    && a.Valid() && b.Valid() && out.Valid() && Fit(a.shape, b.shape) && out.shape == OutShape(a.shape, b.shape)
    && forall i: nat, j: nat, k: nat :: out.shape.Has(i, j, k) ==> out.At(i, j, k) == Combined(a, b, f, i, j, k)
  }

  function Combined<A, B, C>(a: Image<A>, b: Image<B>, f: (A, B) -> C, i: nat, j: nat, k: nat): C
    requires a.Valid() && b.Valid() && Fit(a.shape, b.shape) && OutShape(a.shape, b.shape).Has(i, j, k)
  {
    SourceInside(a.shape, b.shape, i, j, k);
    f(a.At(Held(i, a.shape.n0, b.shape.n0), Held(j, a.shape.n1, b.shape.n1), Held(k, a.shape.n2, b.shape.n2)),
      b.At(Held(i, b.shape.n0, a.shape.n0), Held(j, b.shape.n1, a.shape.n1), Held(k, b.shape.n2, a.shape.n2)))
  }

  datatype Result<T> = Ok(value: T) | Incompatible(axis: nat)

  /** What one axis contributes: 1 or 0 for each input, and the size of the output. */
  datatype Axis = Axis(expand1: nat, expand2: nat, size: nat)

  method CheckAxis(n: nat, m: nat, axis: nat) returns (r: Result<Axis>)
    ensures r.Ok? <==> FitAxis(n, m)
    ensures r.Ok? ==> r.value.size == OutAxis(n, m)
    ensures r.Ok? ==> forall i: nat {:trigger Held(i, n, m)} {:trigger Held(i, m, n)} ::
                        i * r.value.expand1 == Held(i, n, m) && i * r.value.expand2 == Held(i, m, n)
    ensures !r.Ok? ==> r.axis == axis
  {
    var in1expand, in2expand, size := 1, 1, n;
    if n != m {
      if n == 1 {
        in1expand := 0;
        size := m;
      } else if m == 1 {
        in2expand := 0;
        size := n;
      } else {
        return Incompatible(axis);
      }
    }
    return Ok(Axis(in1expand, in2expand, size));
  }

  /** The tables of source pixels, one entry for each output pixel before (x, y, z) in loop order. */
  ghost predicate Mapped(s: Shape, t: Shape, o: Shape, inpix: seq<nat>, x: int, y: int, z: int) {
    && |inpix| == o.Count()
    && forall i: nat, j: nat, k: nat :: o.Has(i, j, k) && Earlier(i, j, k, x, y, z) ==> MapsTo(o, inpix, i, j, k, Source(s, t, i, j, k))
  }

  ghost predicate MapsTo(o: Shape, inpix: seq<nat>, i: nat, j: nat, k: nat, q: nat) {
    Flat(o, i, j, k) < |inpix| && inpix[Flat(o, i, j, k)] == q
  }

  lemma {:induction false} MapOne(s: Shape, t: Shape, o: Shape, inpix: seq<nat>, x: nat, y: nat, z: nat, q: nat, v: nat)
    requires Mapped(s, t, o, inpix, x, y, z) && o.Has(x, y, z) && q == Flat(o, x, y, z) && v == Source(s, t, x, y, z)
    ensures q < |inpix| && Mapped(s, t, o, inpix[q := v], x, y, z + 1)
  {
    FlatInside(o, x, y, z);
    var inpix' := inpix[q := v];
    forall i: nat, j: nat, k: nat | o.Has(i, j, k) && Earlier(i, j, k, x, y, z + 1)
      ensures MapsTo(o, inpix', i, j, k, Source(s, t, i, j, k))
    {
      FlatInside(o, i, j, k);
      FlatInjective(o, i, j, k, x, y, z);
      if Earlier(i, j, k, x, y, z) { assert MapsTo(o, inpix, i, j, k, Source(s, t, i, j, k)); }
    }
  }

  /** Fills the table of one input. */
  method MapPixels(s: Shape, ghost t: Shape, o: Shape, e0: nat, e1: nat, e2: nat, inpix: array<nat>)
    requires inpix.Length == o.Count()
    requires forall i: nat {:trigger Held(i, s.n0, t.n0)} :: i * e0 == Held(i, s.n0, t.n0)
    requires forall i: nat {:trigger Held(i, s.n1, t.n1)} :: i * e1 == Held(i, s.n1, t.n1)
    requires forall i: nat {:trigger Held(i, s.n2, t.n2)} :: i * e2 == Held(i, s.n2, t.n2)
    modifies inpix
    ensures Mapped(s, t, o, inpix[..], o.n0, 0, 0)
  {
    for ii := 0 to o.n0
      invariant Mapped(s, t, o, inpix[..], ii, 0, 0)
    {
      var ii1 := ii * e0;
      for jj := 0 to o.n1
        invariant Mapped(s, t, o, inpix[..], ii, jj, 0)
      {
        var jj1 := jj * e1;
        for kk := 0 to o.n2
          invariant Mapped(s, t, o, inpix[..], ii, jj, kk)
        {
          var outpixi := Flat(o, ii, jj, kk);
          var kk1 := kk * e2;
          var v := Flat(s, ii1, jj1, kk1);
          assert v == Source(s, t, ii, jj, kk);
          MapOne(s, t, o, inpix[..], ii, jj, kk, outpixi, v);
          ghost var before := inpix[..];
          inpix[outpixi] := v;
          assert inpix[..] == before[outpixi := v];
        }
      }
    }
  }

  lemma {:induction false} MappedInside(s: Shape, t: Shape, inpix: seq<nat>, o: Shape, q: nat)
    requires Fit(s, t) && (o == OutShape(s, t) || o == OutShape(t, s)) && Mapped(s, t, o, inpix, o.n0, 0, 0) && q < |inpix|
    ensures inpix[q] < s.Count()
  {
    var i, j, k := FlatOnto(o, q);
    assert MapsTo(o, inpix, i, j, k, Source(s, t, i, j, k));
    SameOut(s, t);
    SourceInside(s, t, i, j, k);
  }

  lemma {:induction false} SameOut(s: Shape, t: Shape)
    requires Fit(s, t)
    ensures Fit(t, s) && OutShape(s, t) == OutShape(t, s)
  {
  }

  /** The values, once the tables are there. */
  lemma {:induction false} EvaluatedIsBroadcast<A, B, C>(a: Image<A>, b: Image<B>, f: (A, B) -> C, out: Image<C>, inpix1: seq<nat>, inpix2: seq<nat>)
    requires a.Valid() && b.Valid() && out.Valid() && Fit(a.shape, b.shape) && out.shape == OutShape(a.shape, b.shape)
    requires Mapped(a.shape, b.shape, out.shape, inpix1, out.shape.n0, 0, 0)
    requires Mapped(b.shape, a.shape, out.shape, inpix2, out.shape.n0, 0, 0)
    requires forall q :: 0 <= q < |out.pix| ==> Evaluates(a.pix, b.pix, f, inpix1, inpix2, q, out.pix[q])
    ensures IsBroadcast(a, b, f, out)
  {
    forall i: nat, j: nat, k: nat | out.shape.Has(i, j, k)
      ensures out.At(i, j, k) == Combined(a, b, f, i, j, k)
    {
      FlatInside(out.shape, i, j, k);
      assert Evaluates(a.pix, b.pix, f, inpix1, inpix2, Flat(out.shape, i, j, k), out.At(i, j, k));
      assert MapsTo(out.shape, inpix1, i, j, k, Source(a.shape, b.shape, i, j, k));
      assert MapsTo(out.shape, inpix2, i, j, k, Source(b.shape, a.shape, i, j, k));
    }
  }

  ghost predicate Evaluates<A, B, C>(x: seq<A>, y: seq<B>, f: (A, B) -> C, inpix1: seq<nat>, inpix2: seq<nat>, q: nat, v: C) {
    q < |inpix1| && q < |inpix2| && inpix1[q] < |x| && inpix2[q] < |y| && v == f(x[inpix1[q]], y[inpix2[q]])
  }

  /** Runs the function over the pixels. */
  method Evaluate<A, B, C>(in1: array<A>, in2: array<B>, f: (A, B) -> C, o: Shape, inpix1: array<nat>, inpix2: array<nat>,
                           blank: C, ghost s: Shape, ghost t: Shape)
    returns (out: array<C>)
    requires in1.Length == s.Count() && in2.Length == t.Count() && Fit(s, t) && o == OutShape(s, t)
    requires Mapped(s, t, o, inpix1[..], o.n0, 0, 0) && Mapped(t, s, o, inpix2[..], o.n0, 0, 0)
    ensures fresh(out) && IsBroadcast(Image(s, in1[..]), Image(t, in2[..]), f, Image(o, out[..]))
  {
    var nbpix := o.Count();
    out := new C[nbpix](_ => blank);
    for q := 0 to nbpix
      invariant forall r :: 0 <= r < q ==> Evaluates(in1[..], in2[..], f, inpix1[..], inpix2[..], r, out[r])
    {
      MappedInside(s, t, inpix1[..], o, q);
      SameOut(s, t);
      MappedInside(t, s, inpix2[..], o, q);
      out[q] := f(in1[inpix1[q]], in2[inpix2[q]]);
    }
    EvaluatedIsBroadcast(Image(s, in1[..]), Image(t, in2[..]), f, Image(o, out[..]), inpix1[..], inpix2[..]);
  }

  /** The two-image operator; it gives up at the first axis whose sizes do not go together. */
  method Operate<A, B, C>(in1: array<A>, s: Shape, in2: array<B>, t: Shape, f: (A, B) -> C, blank: C)
    returns (r: Result<array<C>>, o: Shape)
    requires in1.Length == s.Count() && in2.Length == t.Count()
    ensures r.Ok? <==> Fit(s, t)
    ensures r.Ok? <==> (s.n0 == t.n0 || s.n0 == 1 || t.n0 == 1) && (s.n1 == t.n1 || s.n1 == 1 || t.n1 == 1) &&
                       (s.n2 == t.n2 || s.n2 == 1 || t.n2 == 1)
    ensures r.Ok? ==> fresh(r.value) && IsBroadcast(Image(s, in1[..]), Image(t, in2[..]), f, Image(o, r.value[..]))
    ensures r.Incompatible? ==> r.axis < 3 && !FitAxis(s.Size(r.axis), t.Size(r.axis)) &&
                                forall a: nat :: a < r.axis ==> FitAxis(s.Size(a), t.Size(a))
  {
    o := s;
    var a0 := CheckAxis(s.n0, t.n0, 0);
    if a0.Incompatible? { return Incompatible(0), o; }
    var a1 := CheckAxis(s.n1, t.n1, 1);
    if a1.Incompatible? { return Incompatible(1), o; }
    var a2 := CheckAxis(s.n2, t.n2, 2);
    if a2.Incompatible? { return Incompatible(2), o; }
    o := Shape(a0.value.size, a1.value.size, a2.value.size);
    var inpix1 := new nat[o.Count()];
    var inpix2 := new nat[o.Count()];
    MapPixels(s, t, o, a0.value.expand1, a1.value.expand1, a2.value.expand1, inpix1);
    MapPixels(t, s, o, a0.value.expand2, a1.value.expand2, a2.value.expand2, inpix2);
    var out := Evaluate(in1, in2, f, o, inpix1, inpix2, blank, s, t);
    r := Ok(out);
  }

  /** Pixel (i, j, k) of the output: along an axis where an input has a single pixel it is that one, along the others the
      pixel with the same coordinate; an axis of the output is as long as the longer of the two. */
  lemma {:induction false} BroadcastPixel<A, B, C>(a: Image<A>, b: Image<B>, f: (A, B) -> C, out: Image<C>, i: nat, j: nat, k: nat)
    requires IsBroadcast(a, b, f, out)
    ensures out.shape == Shape(if a.shape.n0 == 1 then b.shape.n0 else a.shape.n0, if a.shape.n1 == 1 then b.shape.n1 else a.shape.n1,
                               if a.shape.n2 == 1 then b.shape.n2 else a.shape.n2)
    ensures out.shape.Has(i, j, k) ==>
              var i1, j1, k1 := if a.shape.n0 == 1 then 0 else i, if a.shape.n1 == 1 then 0 else j, if a.shape.n2 == 1 then 0 else k;
              var i2, j2, k2 := if b.shape.n0 == 1 then 0 else i, if b.shape.n1 == 1 then 0 else j, if b.shape.n2 == 1 then 0 else k;
              a.shape.Has(i1, j1, k1) && b.shape.Has(i2, j2, k2) && out.At(i, j, k) == f(a.At(i1, j1, k1), b.At(i2, j2, k2))
  {
    if out.shape.Has(i, j, k) { assert out.At(i, j, k) == Combined(a, b, f, i, j, k); }
  }

  // ----- what stretching means

  /** The image with single-pixel axes repeated up to the given shape. */
  ghost predicate IsStretched<T>(a: Image<T>, o: Shape, wide: Image<T>) {
    && a.Valid() && wide.Valid() && wide.shape == o && Fit(a.shape, o) && OutShape(a.shape, o) == o
    && forall i: nat, j: nat, k: nat :: o.Has(i, j, k) ==> wide.At(i, j, k) == StretchAt(a, o, i, j, k)
  }

  function StretchAt<T>(a: Image<T>, o: Shape, i: nat, j: nat, k: nat): T
    requires a.Valid() && Fit(a.shape, o) && OutShape(a.shape, o) == o && o.Has(i, j, k)
  {
    SourceInside(a.shape, o, i, j, k);
    a.At(Held(i, a.shape.n0, o.n0), Held(j, a.shape.n1, o.n1), Held(k, a.shape.n2, o.n2))
  }

  /** Main result: the operator gives the same as stretching both images first and then going through
      equal shapes pixel by pixel. */
  lemma {:induction false} BroadcastIsStretching<A, B, C>(a: Image<A>, b: Image<B>, f: (A, B) -> C, out: Image<C>,
                                                          wideA: Image<A>, wideB: Image<B>, out': Image<C>)
    requires IsBroadcast(a, b, f, out)
    requires IsStretched(a, out.shape, wideA) && IsStretched(b, out.shape, wideB) && IsBroadcast(wideA, wideB, f, out')
    ensures out' == out
    ensures forall q :: 0 <= q < |out.pix| ==> |wideA.pix| == |wideB.pix| == |out.pix| && out.pix[q] == f(wideA.pix[q], wideB.pix[q])
  {
    forall i: nat, j: nat, k: nat | out.shape.Has(i, j, k) ensures out'.At(i, j, k) == out.At(i, j, k) {
      assert out'.At(i, j, k) == Combined(wideA, wideB, f, i, j, k);
      assert wideA.At(i, j, k) == StretchAt(a, out.shape, i, j, k);
      assert wideB.At(i, j, k) == StretchAt(b, out.shape, i, j, k);
      assert out.At(i, j, k) == Combined(a, b, f, i, j, k);
    }
    SamePixels(out', out);
    forall q | 0 <= q < |out.pix| ensures out.pix[q] == f(wideA.pix[q], wideB.pix[q]) {
      var i, j, k := FlatOnto(out.shape, q);
      assert out'.At(i, j, k) == Combined(wideA, wideB, f, i, j, k);
    }
  }
}
