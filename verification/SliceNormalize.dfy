/** Normalising each slice of an image by the energy it has under a mask. */
module SliceNormalize {
  import opened Cubes

  /** The coordinate along the slice axis. */
  function Coord(axis: nat, i: nat, j: nat, k: nat): nat
    requires axis < 3
  {
    if axis == 0 then i else if axis == 1 then j else k
  }

  /** The mask has one slice: its coordinate along the slice axis is held at 0. */
  function MaskShape(s: Shape, axis: nat): Shape
    requires axis < 3
  {
    s.Resized(axis, 1)
  }

  function MaskAt(mask: Image<real>, axis: nat, i: nat, j: nat, k: nat): real
    requires axis < 3 && mask.Valid()
  {
    var x, y, z := if axis == 0 then 0 else i, if axis == 1 then 0 else j, if axis == 2 then 0 else k;
    if mask.shape.Has(x, y, z) then mask.At(x, y, z) else 0.0
  }

  /** Step t of the triple loop, which runs over the last axis first. */
  datatype Pixel = Pixel(i: nat, j: nat, k: nat)

  /** The pixels visited before (i, j, k), the last one first, counted down along the loops. */
  function Sum(s: Shape, axis: nat, f: Pixel -> real, slice: nat, i: nat, j: nat, k: nat): real
    requires axis < 3
    decreases i, j, k
  {
    if k > 0 then Sum(s, axis, f, slice, i, j, k - 1) + if Coord(axis, i, j, k - 1) == slice then f(Pixel(i, j, k - 1)) else 0.0
    else if j > 0 then Sum(s, axis, f, slice, i, j - 1, s.n2)
    else if i > 0 then Sum(s, axis, f, slice, i - 1, s.n1, 0)
    else 0.0
  }

  /** The sum of f over a whole slice. */
  function SliceSum(s: Shape, axis: nat, f: Pixel -> real, slice: nat): real
    requires axis < 3
  {
    Sum(s, axis, f, slice, s.n0, 0, 0)
  }

  function Square(x: real): real {
    x * x
  }

  /** The masked value of a pixel. */
  function Masked(img: Image<real>, mask: Image<real>, axis: nat, p: Pixel): real
    requires axis < 3 && mask.Valid() && img.Valid()
  {
    if img.shape.Has(p.i, p.j, p.k) then MaskAt(mask, axis, p.i, p.j, p.k) * img.At(p.i, p.j, p.k) else 0.0
  }

  function EnergyOf(img: Image<real>, mask: Image<real>, axis: nat): Pixel -> real
    requires axis < 3 && mask.Valid() && img.Valid()
  {
    p => Square(Masked(img, mask, axis, p))
  }

  function WeightOf(mask: Image<real>, axis: nat): Pixel -> real
    requires axis < 3 && mask.Valid()
  {
    (p: Pixel) => MaskAt(mask, axis, p.i, p.j, p.k)
  }

  /** The energy of a slice under the mask, and the weight of the mask there. */
  function Energy(img: Image<real>, mask: Image<real>, axis: nat, slice: nat): real
    requires axis < 3 && mask.Valid() && img.Valid()
  {
    SliceSum(img.shape, axis, EnergyOf(img, mask, axis), slice)
  }

  function Weight(s: Shape, mask: Image<real>, axis: nat, slice: nat): real
    requires axis < 3 && mask.Valid()
  {
    SliceSum(s, axis, WeightOf(mask, axis), slice)
  }

  /** Division and square root of the processor. */
  datatype Arithmetic = Arithmetic(div: (real, real) -> real, sqrt: real -> real) {
    ghost predicate Valid() {
      && (forall x: real, y: real {:trigger div(x, y)} :: y != 0.0 ==> div(x, y) == x / y)
      && (forall x: real {:trigger sqrt(x)} :: x > 0.0 ==> sqrt(x) > 0.0 && sqrt(x) * sqrt(x) == x)
    }
  }

  /** What a slice is divided by. */
  function Norm(ar: Arithmetic, energy: real, weight: real, modeRMS: bool): real {
    var mean := ar.div(energy, weight);
    var root := if mean > 0.0 then ar.sqrt(mean) else mean;
    if modeRMS then root else root * ar.sqrt(weight)
  }

  /** Every pixel of out is the pixel of img divided by the norm of its slice. */
  ghost predicate IsNormalized(ar: Arithmetic, img: Image<real>, mask: Image<real>, axis: nat, modeRMS: bool, out: Image<real>) {
    && axis < 3 && img.Valid() && mask.Valid() && out.Valid() && out.shape == img.shape
    && forall i: nat, j: nat, k: nat :: out.shape.Has(i, j, k) ==>
         out.At(i, j, k) == ar.div(img.At(i, j, k), SliceNorm(ar, img, mask, axis, modeRMS, Coord(axis, i, j, k)))
  }

  function SliceNorm(ar: Arithmetic, img: Image<real>, mask: Image<real>, axis: nat, modeRMS: bool, slice: nat): real
    requires axis < 3 && img.Valid() && mask.Valid()
  {
    Norm(ar, Energy(img, mask, axis, slice), Weight(img.shape, mask, axis, slice), modeRMS)
  }

  // ----- the sums

  /** The accumulators hold the sums over the pixels before (i, j, k). */
  ghost predicate SumsTo(s: Shape, axis: nat, e: Pixel -> real, w: Pixel -> real, norm: seq<real>, cnt: seq<real>, i: nat, j: nat, k: nat)
    requires axis < 3
  {
    && |norm| == |cnt| == s.Size(axis)
    && forall c: nat :: c < |norm| ==> norm[c] == Sum(s, axis, e, c, i, j, k) && cnt[c] == Sum(s, axis, w, c, i, j, k)
  }

  /** e and w are what the pixel contributes to the energy and to the weight. */
  ghost predicate Contributes(inp: seq<real>, s: Shape, mask: seq<real>, axis: nat, e: Pixel -> real, w: Pixel -> real, i: nat, j: nat, k: nat)
    requires axis < 3 && |inp| == s.Count() && |mask| == MaskShape(s, axis).Count() && s.Has(i, j, k)
  {
    var p, m := Pixel(i, j, k), MaskAt(Image(MaskShape(s, axis), mask), axis, i, j, k);
    e(p) == Square(m * Image(s, inp).At(i, j, k)) && w(p) == m
  }

  ghost predicate AllContribute(inp: seq<real>, s: Shape, mask: seq<real>, axis: nat, e: Pixel -> real, w: Pixel -> real)
    requires axis < 3 && |inp| == s.Count() && |mask| == MaskShape(s, axis).Count()
  {
    forall i: nat, j: nat, k: nat :: s.Has(i, j, k) ==> Contributes(inp, s, mask, axis, e, w, i, j, k)
  }

  /** The mask of a pixel and its masked value squared. */
  method ReadPixel(inp: array<real>, s: Shape, mask: array<real>, axis: nat, ghost e: Pixel -> real, ghost w: Pixel -> real,
                   ii: nat, jj: nat, kk: nat)
    returns (energy: real, m: real)
    requires axis < 3 && inp.Length == s.Count() && mask.Length == MaskShape(s, axis).Count() && s.Has(ii, jj, kk)
    requires Contributes(inp[..], s, mask[..], axis, e, w, ii, jj, kk)
    ensures energy == e(Pixel(ii, jj, kk)) && m == w(Pixel(ii, jj, kk))
  {
    var ms := MaskShape(s, axis);
    var iim := if axis == 0 then 0 else ii;
    var jjm := if axis == 1 then 0 else jj;
    var kkm := if axis == 2 then 0 else kk;
    FlatInside(s, ii, jj, kk);
    FlatInside(ms, iim, jjm, kkm);
    m := mask[Flat(ms, iim, jjm, kkm)];
    var valm := m * inp[Flat(s, ii, jj, kk)];
    energy := valm * valm;
  }

  lemma {:induction false} PixelDone(s: Shape, axis: nat, e: Pixel -> real, w: Pixel -> real, norm: seq<real>, cnt: seq<real>,
                                     i: nat, j: nat, k: nat, c: nat)
    requires axis < 3 && SumsTo(s, axis, e, w, norm, cnt, i, j, k) && c == Coord(axis, i, j, k) < |norm|
    ensures SumsTo(s, axis, e, w, norm[c := norm[c] + e(Pixel(i, j, k))], cnt[c := cnt[c] + w(Pixel(i, j, k))], i, j, k + 1)
  {
    var norm', cnt' := norm[c := norm[c] + e(Pixel(i, j, k))], cnt[c := cnt[c] + w(Pixel(i, j, k))];
    forall d: nat | d < |norm|
      ensures norm'[d] == Sum(s, axis, e, d, i, j, k + 1) && cnt'[d] == Sum(s, axis, w, d, i, j, k + 1)
    {
      assert norm[d] == Sum(s, axis, e, d, i, j, k) && cnt[d] == Sum(s, axis, w, d, i, j, k);
    }
  }

  /** One pixel. */
  method AddPixel(inp: array<real>, s: Shape, mask: array<real>, axis: nat, norm: array<real>, cnt: array<real>,
                  ghost e: Pixel -> real, ghost w: Pixel -> real, ii: nat, jj: nat, kk: nat)
    requires axis < 3 && inp.Length == s.Count() && mask.Length == MaskShape(s, axis).Count() && s.Has(ii, jj, kk)
    requires norm != cnt && norm != inp && norm != mask && cnt != inp && cnt != mask
    requires Contributes(inp[..], s, mask[..], axis, e, w, ii, jj, kk) && SumsTo(s, axis, e, w, norm[..], cnt[..], ii, jj, kk)
    modifies norm, cnt
    ensures SumsTo(s, axis, e, w, norm[..], cnt[..], ii, jj, kk + 1)
  {
    var energy, m := ReadPixel(inp, s, mask, axis, e, w, ii, jj, kk);
    var c := Coord(axis, ii, jj, kk);
    PixelDone(s, axis, e, w, norm[..], cnt[..], ii, jj, kk, c);
    ghost var norm0, cnt0 := norm[..], cnt[..];
    norm[c] := norm[c] + energy;
    cnt[c] := cnt[c] + m;
    assert norm[..] == norm0[c := norm0[c] + e(Pixel(ii, jj, kk))];
    assert cnt[..] == cnt0[c := cnt0[c] + w(Pixel(ii, jj, kk))];
  }

  /** Adds up the energies and the weights of all slices. */
  method Accumulate(inp: array<real>, s: Shape, mask: array<real>, axis: nat, ghost e: Pixel -> real, ghost w: Pixel -> real)
    returns (norm: array<real>, cnt: array<real>)
    requires axis < 3 && inp.Length == s.Count() && mask.Length == MaskShape(s, axis).Count()
    requires AllContribute(inp[..], s, mask[..], axis, e, w)
    ensures fresh(norm) && fresh(cnt) && norm != cnt && norm.Length == cnt.Length == s.Size(axis)
    ensures SumsTo(s, axis, e, w, norm[..], cnt[..], s.n0, 0, 0)
  {
    norm := new real[s.Size(axis)](_ => 0.0);
    cnt := new real[s.Size(axis)](_ => 0.0);
    for ii := 0 to s.n0
      invariant SumsTo(s, axis, e, w, norm[..], cnt[..], ii, 0, 0)
    {
      for jj := 0 to s.n1
        invariant SumsTo(s, axis, e, w, norm[..], cnt[..], ii, jj, 0)
      {
        for kk := 0 to s.n2
          invariant SumsTo(s, axis, e, w, norm[..], cnt[..], ii, jj, kk)
        {
          assert Contributes(inp[..], s, mask[..], axis, e, w, ii, jj, kk);
          AddPixel(inp, s, mask, axis, norm, cnt, e, w, ii, jj, kk);
        }
        ColumnDone(s, axis, e, w, norm[..], cnt[..], ii, jj);
      }
      PlaneDone(s, axis, e, w, norm[..], cnt[..], ii);
    }
  }

  lemma {:induction false} ColumnDone(s: Shape, axis: nat, e: Pixel -> real, w: Pixel -> real, norm: seq<real>, cnt: seq<real>, i: nat, j: nat)
    requires axis < 3 && SumsTo(s, axis, e, w, norm, cnt, i, j, s.n2)
    ensures SumsTo(s, axis, e, w, norm, cnt, i, j + 1, 0)
  {
    forall c: nat | c < |norm|
      ensures norm[c] == Sum(s, axis, e, c, i, j + 1, 0) && cnt[c] == Sum(s, axis, w, c, i, j + 1, 0)
    {
      assert Sum(s, axis, e, c, i, j + 1, 0) == Sum(s, axis, e, c, i, j, s.n2);
      assert Sum(s, axis, w, c, i, j + 1, 0) == Sum(s, axis, w, c, i, j, s.n2);
    }
  }

  lemma {:induction false} PlaneDone(s: Shape, axis: nat, e: Pixel -> real, w: Pixel -> real, norm: seq<real>, cnt: seq<real>, i: nat)
    requires axis < 3 && SumsTo(s, axis, e, w, norm, cnt, i, s.n1, 0)
    ensures SumsTo(s, axis, e, w, norm, cnt, i + 1, 0, 0)
  {
    forall c: nat | c < |norm|
      ensures norm[c] == Sum(s, axis, e, c, i + 1, 0, 0) && cnt[c] == Sum(s, axis, w, c, i + 1, 0, 0)
    {
      assert Sum(s, axis, e, c, i + 1, 0, 0) == Sum(s, axis, e, c, i, s.n1, 0);
      assert Sum(s, axis, w, c, i + 1, 0, 0) == Sum(s, axis, w, c, i, s.n1, 0);
    }
  }

  // ----- the norms and the scaling

  /** Turns the sums into norms. */
  method MakeNorms(ar: Arithmetic, norm: array<real>, cnt: array<real>, modeRMS: bool)
    requires norm != cnt && norm.Length == cnt.Length
    modifies norm
    ensures forall c :: 0 <= c < norm.Length ==> norm[c] == Norm(ar, old(norm[c]), cnt[c], modeRMS)
  {
    for ii := 0 to norm.Length
      invariant forall c :: 0 <= c < ii ==> norm[c] == Norm(ar, old(norm[c]), cnt[c], modeRMS)
      invariant forall c :: ii <= c < norm.Length ==> norm[c] == old(norm[c])
    {
      var x := ar.div(norm[ii], cnt[ii]);
      if x > 0.0 {
        x := ar.sqrt(x);
      }
      if !modeRMS {
        x := x * ar.sqrt(cnt[ii]);
      }
      norm[ii] := x;
    }
  }

  /** out holds img divided slice by slice, for the pixels before (x, y, z). */
  ghost predicate Scaled(ar: Arithmetic, img: Image<real>, axis: nat, norm: seq<real>, out: Image<real>, x: nat, y: nat, z: nat) {
    && axis < 3 && img.Valid() && out.Valid() && out.shape == img.shape && |norm| == img.shape.Size(axis)
    && forall i: nat, j: nat, k: nat :: out.shape.Has(i, j, k) && Earlier(i, j, k, x, y, z) ==>
         out.At(i, j, k) == ar.div(img.At(i, j, k), norm[Coord(axis, i, j, k)])
  }

  lemma {:induction false} ScaleOne(ar: Arithmetic, img: Image<real>, axis: nat, norm: seq<real>, out: Image<real>, x: nat, y: nat, z: nat, q: nat)
    requires Scaled(ar, img, axis, norm, out, x, y, z) && img.shape.Has(x, y, z) && q == Flat(img.shape, x, y, z)
    ensures q < |out.pix|
    ensures Scaled(ar, img, axis, norm, Image(out.shape, out.pix[q := ar.div(img.At(x, y, z), norm[Coord(axis, x, y, z)])]), x, y, z + 1)
  {
    FlatInside(img.shape, x, y, z);
    var v := ar.div(img.At(x, y, z), norm[Coord(axis, x, y, z)]);
    var out' := Image(out.shape, out.pix[q := v]);
    forall i: nat, j: nat, k: nat | out.shape.Has(i, j, k) && Earlier(i, j, k, x, y, z + 1)
      ensures out'.At(i, j, k) == ar.div(img.At(i, j, k), norm[Coord(axis, i, j, k)])
    {
      AtUpdate(out, x, y, z, v, i, j, k);
    }
  }

  method Scale(ar: Arithmetic, inp: array<real>, s: Shape, axis: nat, norm: array<real>, out: array<real>)
    requires axis < 3 && inp.Length == out.Length == s.Count() && norm.Length == s.Size(axis) && out != inp && out != norm
    modifies out
    ensures Scaled(ar, Image(s, inp[..]), axis, norm[..], Image(s, out[..]), s.n0, 0, 0)
  {
    ghost var img := Image(s, inp[..]);
    for ii := 0 to s.n0
      invariant Scaled(ar, img, axis, norm[..], Image(s, out[..]), ii, 0, 0)
    {
      for jj := 0 to s.n1
        invariant Scaled(ar, img, axis, norm[..], Image(s, out[..]), ii, jj, 0)
      {
        for kk := 0 to s.n2
          invariant Scaled(ar, img, axis, norm[..], Image(s, out[..]), ii, jj, kk)
        {
          var pixi := Flat(s, ii, jj, kk);
          ScaleOne(ar, img, axis, norm[..], Image(s, out[..]), ii, jj, kk, pixi);
          ghost var before := out[..];
          out[pixi] := ar.div(inp[pixi], norm[Coord(axis, ii, jj, kk)]);
          assert out[..] == before[pixi := ar.div(img.At(ii, jj, kk), norm[..][Coord(axis, ii, jj, kk)])];
        }
      }
    }
  }

  /** The slices of an image normalised. */
  method Normalize(ar: Arithmetic, inp: array<real>, s: Shape, mask: array<real>, axis: nat, modeRMS: bool) returns (out: array<real>)
    requires axis < 3 && inp.Length == s.Count() && mask.Length == MaskShape(s, axis).Count()
    ensures fresh(out) && IsNormalized(ar, Image(s, inp[..]), Image(MaskShape(s, axis), mask[..]), axis, modeRMS, Image(s, out[..]))
  {
    ghost var img, m := Image(s, inp[..]), Image(MaskShape(s, axis), mask[..]);
    ghost var e, w := EnergyOf(img, m, axis), WeightOf(m, axis);
    forall i: nat, j: nat, k: nat | s.Has(i, j, k) ensures Contributes(inp[..], s, mask[..], axis, e, w, i, j, k) {
    }
    out := new real[s.Count()](_ => 0.0);
    var norm, cnt := Accumulate(inp, s, mask, axis, e, w);
    MakeNorms(ar, norm, cnt, modeRMS);
    Scale(ar, inp, s, axis, norm, out);
  }

  // ----- what normalising achieves

  ghost predicate Additive(h: real -> real) {
    h(0.0) == 0.0 && forall x: real, y: real :: Adds(h, x, y)
  }

  ghost predicate Adds(h: real -> real, x: real, y: real) {
    h(x + y) == h(x) + h(y)
  }

  /** f is h of g on the pixels of the slice. */
  ghost predicate MappedBy(s: Shape, axis: nat, slice: nat, f: Pixel -> real, g: Pixel -> real, h: real -> real)
    requires axis < 3
  {
    forall i: nat, j: nat, k: nat :: s.Has(i, j, k) && Coord(axis, i, j, k) == slice ==> ImageAt(f, g, h, Pixel(i, j, k))
  }

  ghost predicate ImageAt(f: Pixel -> real, g: Pixel -> real, h: real -> real, p: Pixel) {
    f(p) == h(g(p))
  }

  lemma {:induction false} SumLinear(s: Shape, axis: nat, slice: nat, f: Pixel -> real, g: Pixel -> real, h: real -> real, i: nat, j: nat, k: nat)
    requires axis < 3 && Additive(h) && MappedBy(s, axis, slice, f, g, h)
    requires i <= s.n0 && j <= s.n1 && k <= s.n2 && (k > 0 ==> j < s.n1) && (j > 0 || k > 0 ==> i < s.n0)
    ensures Sum(s, axis, f, slice, i, j, k) == h(Sum(s, axis, g, slice, i, j, k))
    decreases i, j, k
  {
    if k > 0 {
      SumLinear(s, axis, slice, f, g, h, i, j, k - 1);
      if Coord(axis, i, j, k - 1) == slice {
        assert ImageAt(f, g, h, Pixel(i, j, k - 1));
        assert Adds(h, Sum(s, axis, g, slice, i, j, k - 1), g(Pixel(i, j, k - 1)));
      }
    } else if j > 0 {
      SumLinear(s, axis, slice, f, g, h, i, j - 1, s.n2);
    } else if i > 0 {
      SumLinear(s, axis, slice, f, g, h, i - 1, s.n1, 0);
    }
  }

  function By(d: real): real -> real {
    x => d * x
  }

  lemma {:induction false} ByAdds(d: real)
    ensures Additive(By(d))
  {
    forall x: real, y: real ensures Adds(By(d), x, y) {
      assert d * (x + y) == d * x + d * y;
    }
  }

  /** The square of the norm. */
  lemma {:induction false} NormSquared(ar: Arithmetic, energy: real, weight: real, modeRMS: bool) returns (n: real, d: real)
    requires ar.Valid() && energy > 0.0 && weight > 0.0
    ensures n == Norm(ar, energy, weight, modeRMS) > 0.0 && d == n * n > 0.0
    ensures energy == d * (if modeRMS then weight else 1.0)
  {
    n := Norm(ar, energy, weight, modeRMS);
    d := n * n;
    var mean := ar.div(energy, weight);
    Quotient(energy, weight);
    assert mean == energy / weight;
    var r, q := ar.sqrt(mean), ar.sqrt(weight);
    assert r > 0.0 && r * r == mean && q > 0.0 && q * q == weight;
    ProductOfRoots(r, q);
  }

  lemma {:induction false} Quotient(x: real, y: real)
    requires x > 0.0 && y > 0.0
    ensures x / y > 0.0 && (x / y) * y == x
  {
  }

  lemma {:induction false} ProductOfRoots(r: real, q: real)
    requires r > 0.0 && q > 0.0
    ensures r * q > 0.0 && (r * q) * (r * q) == (r * r) * (q * q)
  {
  }

  /** Dividing a pixel by n divides its masked energy by n squared. */
  lemma {:induction false} PixelEnergy(m: real, v: real, n: real)
    requires n > 0.0
    ensures Square(m * v) == (n * n) * Square(m * (v / n))
  {
    var u := v / n;
    assert v == u * n;
    assert m * v == (m * u) * n;
    var x := m * u;
    assert (x * n) * (x * n) == (n * n) * (x * x);
  }

  lemma {:induction false} PixelScales(img: Image<real>, mask: Image<real>, axis: nat, out: Image<real>, n: real, i: nat, j: nat, k: nat)
    requires axis < 3 && img.Valid() && mask.Valid() && out.Valid() && out.shape == img.shape && img.shape.Has(i, j, k) && n > 0.0
    ensures out.At(i, j, k) == img.At(i, j, k) / n ==>
              ImageAt(EnergyOf(img, mask, axis), EnergyOf(out, mask, axis), By(n * n), Pixel(i, j, k))
  {
    var m, v := MaskAt(mask, axis, i, j, k), img.At(i, j, k);
    PixelEnergy(m, v, n);
    assert EnergyOf(img, mask, axis)(Pixel(i, j, k)) == Square(m * v);
    assert EnergyOf(out, mask, axis)(Pixel(i, j, k)) == Square(m * out.At(i, j, k));
  }

  lemma {:induction false} EnergiesScale(ar: Arithmetic, img: Image<real>, mask: Image<real>, axis: nat, modeRMS: bool, out: Image<real>,
                                         slice: nat, n: real, d: real)
    requires ar.Valid() && IsNormalized(ar, img, mask, axis, modeRMS, out)
    requires n == SliceNorm(ar, img, mask, axis, modeRMS, slice) > 0.0 && d == n * n
    ensures MappedBy(img.shape, axis, slice, EnergyOf(img, mask, axis), EnergyOf(out, mask, axis), By(d))
  {
    forall i: nat, j: nat, k: nat | img.shape.Has(i, j, k) && Coord(axis, i, j, k) == slice
      ensures ImageAt(EnergyOf(img, mask, axis), EnergyOf(out, mask, axis), By(d), Pixel(i, j, k))
    {
      assert out.At(i, j, k) == ar.div(img.At(i, j, k), n) == img.At(i, j, k) / n;
      PixelScales(img, mask, axis, out, n, i, j, k);
    }
  }

  /** Main result: a slice with positive masked energy and mask weight has masked energy 1 after
      normalisation, or the mask weight in RMS mode, whichever axis the slices lie along. */
  lemma {:induction false} NormalizedEnergy(ar: Arithmetic, img: Image<real>, mask: Image<real>, axis: nat, modeRMS: bool, out: Image<real>, slice: nat)
    requires ar.Valid() && IsNormalized(ar, img, mask, axis, modeRMS, out)
    requires Energy(img, mask, axis, slice) > 0.0 && Weight(img.shape, mask, axis, slice) > 0.0
    ensures Energy(out, mask, axis, slice) == if modeRMS then Weight(img.shape, mask, axis, slice) else 1.0
  {
    var energy, weight := Energy(img, mask, axis, slice), Weight(img.shape, mask, axis, slice);
    var n, d := NormSquared(ar, energy, weight, modeRMS);
    EnergiesScale(ar, img, mask, axis, modeRMS, out, slice, n, d);
    ByAdds(d);
    SumLinear(img.shape, axis, slice, EnergyOf(img, mask, axis), EnergyOf(out, mask, axis), By(d), img.shape.n0, 0, 0);
    assert energy == By(d)(Energy(out, mask, axis, slice));
    SameFactor(d, energy, Energy(out, mask, axis, slice), if modeRMS then weight else 1.0);
  }

  lemma {:induction false} SameFactor(d: real, e: real, x: real, y: real)
    requires d > 0.0 && e == d * x && e == d * y
    ensures x == y
  {
    assert d * (x - y) == 0.0;
  }

  /** Normalising once more changes nothing in such a slice. */
  lemma {:induction false} NormalizedTwice(ar: Arithmetic, img: Image<real>, mask: Image<real>, axis: nat, modeRMS: bool,
                                           out: Image<real>, again: Image<real>, i: nat, j: nat, k: nat)
    requires ar.Valid() && IsNormalized(ar, img, mask, axis, modeRMS, out) && IsNormalized(ar, out, mask, axis, modeRMS, again)
    requires img.shape.Has(i, j, k)
    requires Energy(img, mask, axis, Coord(axis, i, j, k)) > 0.0 && Weight(img.shape, mask, axis, Coord(axis, i, j, k)) > 0.0
    ensures again.At(i, j, k) == out.At(i, j, k)
  {
    var slice := Coord(axis, i, j, k);
    var weight := Weight(img.shape, mask, axis, slice);
    NormalizedEnergy(ar, img, mask, axis, modeRMS, out, slice);
    var n, d := NormSquared(ar, if modeRMS then weight else 1.0, weight, modeRMS);
    SameFactor(if modeRMS then weight else 1.0, if modeRMS then weight else 1.0, d, 1.0);
    RootOfOne(n);
    assert n == SliceNorm(ar, out, mask, axis, modeRMS, slice);
  }

  lemma {:induction false} RootOfOne(n: real)
    requires n > 0.0 && n * n == 1.0
    ensures n == 1.0
  {
    assert (n - 1.0) * (n + 1.0) == 0.0;
  }
}
