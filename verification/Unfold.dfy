/** Unfolding a cube: its planes are laid out beside each other, colsize to a row of planes. */
module Unfold {
  import opened Index
  import opened Cubes

  /** The size of the output when axis 2 is merged into axis 0. */
  function OutShape(s: Shape, c: nat): Shape
    requires c >= 1
  {
    Shape(s.n0 * c, s.n1 * (1 + s.n2 / c), 1)
  }

  /** The column of column x of plane z: there are c planes in a row. */
  function Col(s: Shape, c: nat, x: nat, z: nat): nat
    requires c >= 1
  {
    (z % c) * s.n0 + x
  }

  /** The row of row y of plane z. */
  function Row(s: Shape, c: nat, y: nat, z: nat): nat
    requires c >= 1
  {
    (z / c) * s.n1 + y
  }

  /** Where pixel (x, y, z) belongs. */
  function Place(s: Shape, c: nat, x: nat, y: nat, z: nat): nat
    requires c >= 1
  {
    Flat(OutShape(s, c), Col(s, c, x, z), Row(s, c, y, z), 0)
  }

  /** The column and row are inside the output. */
  lemma {:induction false} PlaceInside(s: Shape, c: nat, x: nat, y: nat, z: nat)
    requires c >= 1 && s.Has(x, y, z)
    ensures OutShape(s, c).Has(Col(s, c, x, z), Row(s, c, y, z), 0)
    ensures Place(s, c, x, y, z) < OutShape(s, c).Count()
  {
    DivMod(z, c);
    InRow(z % c, x, c, s.n0);
    QuotientMonotone(z, s.n2, c);
    InRow(z / c, y, 1 + s.n2 / c, s.n1);
    FlatInside(OutShape(s, c), Col(s, c, x, z), Row(s, c, y, z), 0);
  }

  lemma {:induction false} QuotientMonotone(a: nat, b: nat, c: nat)
    requires c >= 1 && a <= b
    ensures a / c <= b / c
  {
    DivMod(a, c);
    DivMod(b, c);
    if b / c < a / c { RowsApart(b / c, a / c, c); }
  }

  /** No two pixels meet. */
  lemma {:induction false} PlaceInjective(s: Shape, c: nat, x: nat, y: nat, z: nat, x': nat, y': nat, z': nat)
    requires c >= 1 && s.Has(x, y, z) && s.Has(x', y', z')
    ensures Place(s, c, x, y, z) == Place(s, c, x', y', z') ==> x == x' && y == y' && z == z'
  {
    if Place(s, c, x, y, z) != Place(s, c, x', y', z') { return; }
    PlaceInside(s, c, x, y, z);
    PlaceInside(s, c, x', y', z');
    FlatInjective(OutShape(s, c), Col(s, c, x, z), Row(s, c, y, z), 0, Col(s, c, x', z'), Row(s, c, y', z'), 0);
    SamePlane(s, c, x, z, x', z', y, y');
  }

  lemma {:induction false} SamePlane(s: Shape, c: nat, x: nat, z: nat, x': nat, z': nat, y: nat, y': nat)
    requires c >= 1 && x < s.n0 && x' < s.n0 && y < s.n1 && y' < s.n1
    requires Col(s, c, x, z) == Col(s, c, x', z') && Row(s, c, y, z) == Row(s, c, y', z')
    ensures x == x' && y == y' && z == z'
  {
    var q, r, q', r' := z / c, z % c, z' / c, z' % c;
    DivMod(z, c);
    DivMod(z', c);
    RowColumn(r, x, r', x', s.n0);
    RowColumn(q, y, q', y', s.n1);
  }

  /** The running index ii = z X + x splits into the column and the plane row. */
  lemma {:induction false} RunningIndex(s: Shape, c: nat, x: nat, y: nat, z: nat)
    requires c >= 1 && s.Has(x, y, z)
    ensures s.n0 * c > 0
    ensures var w := s.n0 * c; var ii := z * s.n0 + x;
            y * w + ii % w + (s.n1 * w) * (ii / w) == Place(s, c, x, y, z)
  {
    var w, ii, a, b := s.n0 * c, z * s.n0 + x, z / c, z % c;
    DivMod(z, c);
    InRow(b, x, c, s.n0);
    assert ii == a * w + (b * s.n0 + x) by {
      assert z * s.n0 == (a * c + b) * s.n0 == a * c * s.n0 + b * s.n0;
      assert a * c * s.n0 == a * (s.n0 * c);
    }
    DivModOf(a, b * s.n0 + x, w);
    RowsOfPlanes(y, s.n1, a, w);
    assert Place(s, c, x, y, z) == (a * s.n1 + y) * w + (b * s.n0 + x);
  }

  lemma {:induction false} RowsOfPlanes(y: nat, n: nat, a: nat, w: nat)
    ensures (a * n + y) * w == y * w + (n * w) * a
  {
  }

  /** The place of the t-th input pixel. */
  function PlaceAt(s: Shape, c: nat, t: nat): nat
    requires c >= 1 && s.n0 > 0 && s.n1 > 0
  {
    var r: nat := t / s.n0;
    Place(s, c, t % s.n0, r % s.n1, r / s.n1)
  }

  lemma {:induction false} PlaceAtFlat(s: Shape, c: nat, x: nat, y: nat, z: nat)
    requires c >= 1 && s.Has(x, y, z)
    ensures PlaceAt(s, c, Flat(s, x, y, z)) == Place(s, c, x, y, z)
  {
    var r := z * s.n1 + y;
    var t := r * s.n0 + x;
    DivModOf(r, x, s.n0);
    DivModOf(z, y, s.n1);
    assert t == Flat(s, x, y, z) && t % s.n0 == x && t / s.n0 == r;
  }

  lemma {:induction false} PlaceAtInside(s: Shape, c: nat, t: nat)
    requires c >= 1 && s.n0 > 0 && s.n1 > 0 && t < s.Count()
    ensures PlaceAt(s, c, t) < OutShape(s, c).Count()
  {
    var x, y, z := FlatOnto(s, t);
    PlaceAtFlat(s, c, x, y, z);
    PlaceInside(s, c, x, y, z);
  }

  lemma {:induction false} PlaceAtInjective(s: Shape, c: nat, t: nat, t': nat)
    requires c >= 1 && s.n0 > 0 && s.n1 > 0 && t < s.Count() && t' < s.Count() && t != t'
    ensures PlaceAt(s, c, t) != PlaceAt(s, c, t')
  {
    var x, y, z := FlatOnto(s, t);
    var x', y', z' := FlatOnto(s, t');
    PlaceAtFlat(s, c, x, y, z);
    PlaceAtFlat(s, c, x', y', z');
    if PlaceAt(s, c, t) == PlaceAt(s, c, t') { PlaceInjective(s, c, x, y, z, x', y', z'); }
  }

  function Places(s: Shape, c: nat): nat -> nat
    requires c >= 1 && s.n0 > 0 && s.n1 > 0
  {
    t => PlaceAt(s, c, t)
  }

  /** No input pixel before n has the place of pixel n. */
  lemma {:induction false} FreshPlace(s: Shape, c: nat, n: nat)
    requires c >= 1 && s.n0 > 0 && s.n1 > 0 && n < s.Count()
    ensures Places(s, c)(n) < OutShape(s, c).Count()
    ensures forall t: nat :: t < n ==> Places(s, c)(t) != Places(s, c)(n)
  {
    PlaceAtInside(s, c, n);
    forall t: nat | t < n ensures Places(s, c)(t) != Places(s, c)(n) {
      PlaceAtInjective(s, c, t, n);
    }
  }

  /** One of the first n elements has place p. */
  ghost predicate Taken(place: nat -> nat, n: nat, p: nat) {
    exists t: nat :: t < n && place(t) == p
  }

  /** The first n elements are in their places and nothing else is. */
  ghost predicate Scattered<T>(place: nat -> nat, inp: seq<T>, out: seq<T>, blank: T, n: nat) {
    && n <= |inp|
    && (forall t: nat :: t < n && place(t) < |out| ==> out[place(t)] == inp[t])
    && (forall p: nat :: p < |out| && !Taken(place, n, p) ==> out[p] == blank)
  }

  lemma {:induction false} TakenMore(place: nat -> nat, n: nat, p: nat)
    ensures Taken(place, n + 1, p) <==> Taken(place, n, p) || place(n) == p
  {
    if Taken(place, n, p) {
      var t: nat :| t < n && place(t) == p;
      assert t < n + 1;
    }
  }

  lemma {:induction false} ScatterOne<T>(place: nat -> nat, inp: seq<T>, out: seq<T>, blank: T, n: nat)
    requires Scattered(place, inp, out, blank, n) && n < |inp| && place(n) < |out|
    requires forall t: nat :: t < n ==> place(t) != place(n)
    ensures Scattered(place, inp, out[place(n) := inp[n]], blank, n + 1)
  {
    var out' := out[place(n) := inp[n]];
    forall r: nat | r < |out| && !Taken(place, n + 1, r) ensures out'[r] == blank {
      TakenMore(place, n, r);
    }
  }

  /** The first n pixels of the cube are laid out. */
  ghost predicate Laid<T>(s: Shape, c: nat, inp: seq<T>, out: seq<T>, blank: T, n: nat)
    requires c >= 1
  {
    && |inp| == s.Count() && |out| == OutShape(s, c).Count() && n <= |inp|
    && (s.n0 > 0 && s.n1 > 0 ==> Scattered(Places(s, c), inp, out, blank, n))
  }

  /** How often the planes wrap into a new row of planes. */
  method CountRows(n: nat, colsize: nat) returns (mdim1: nat)
    requires colsize >= 1
    ensures mdim1 == 1 + n / colsize
  {
    var mdim0 := 0;
    mdim1 := 1;
    for ii := 0 to n
      invariant mdim0 < colsize && mdim1 >= 1
      invariant ii == (mdim1 - 1) * colsize + mdim0
    {
      mdim0 := mdim0 + 1;
      if mdim0 == colsize {
        Successor(mdim1 - 1, colsize);
        mdim0 := 0;
        mdim1 := mdim1 + 1;
      }
    }
    DivModOf(mdim1 - 1, mdim0, colsize);
  }

  /** Axis 2 merged into axis 0 of a three-axis image. */
  method UnfoldImage<T>(inp: array<T>, s: Shape, colsize: nat, blank: T) returns (out: array<T>, o: Shape)
    requires colsize >= 1 && inp.Length == s.Count()
    ensures fresh(out) && o == OutShape(s, colsize)
    ensures Laid(s, colsize, inp[..], out[..], blank, s.Count())
  {
    var mdim1 := CountRows(s.n2, colsize);
    o := Shape(s.n0 * colsize, s.n1 * mdim1, 1);
    var mdimsize := s.n1 * o.n0;
    out := new T[o.Count()](_ => blank);
    var ii, jj, pixi := 0, 0, 0;
    for pixi2 := 0 to s.n2
      invariant ii == pixi2 * s.n0 && jj == 0 && pixi == Flat(s, 0, 0, pixi2)
      invariant pixi <= inp.Length && Laid(s, colsize, inp[..], out[..], blank, pixi)
    {
      for pixi1 := 0 to s.n1
        invariant ii == pixi2 * s.n0 && jj == pixi1 && pixi == Flat(s, 0, pixi1, pixi2)
        invariant pixi <= inp.Length && Laid(s, colsize, inp[..], out[..], blank, pixi)
      {
        for pixi0 := 0 to s.n0
          invariant ii == pixi2 * s.n0 + pixi0 && jj == pixi1 && pixi == Flat(s, pixi0, pixi1, pixi2)
          invariant pixi <= inp.Length && Laid(s, colsize, inp[..], out[..], blank, pixi)
        {
          FlatInside(s, pixi0, pixi1, pixi2);
          RunningIndex(s, colsize, pixi0, pixi1, pixi2);
          PlaceAtFlat(s, colsize, pixi0, pixi1, pixi2);
          var pixo := jj * o.n0 + ii % o.n0 + mdimsize * (ii / o.n0);
          FreshPlace(s, colsize, pixi);
          assert pixo == Places(s, colsize)(pixi);
          ScatterOne(Places(s, colsize), inp[..], out[..], blank, pixi);
          ghost var before := out[..];
          out[pixo] := inp[pixi];
          assert out[..] == before[pixo := inp[pixi]];
          pixi := pixi + 1;
          ii := ii + 1;
        }
        Successor(pixi2 * s.n1 + pixi1, s.n0);
        jj := jj + 1;
        ii := ii - s.n0;
      }
      Successor(pixi2, s.n1);
      Successor(pixi2, s.n0);
      ii := ii + s.n0;
      jj := jj - s.n1;
    }
  }

  /** Main result: every pixel of the cube is in its place in the output. */
  lemma {:induction false} PixelInPlace<T>(s: Shape, c: nat, inp: seq<T>, out: seq<T>, blank: T, x: nat, y: nat, z: nat)
    requires c >= 1 && Laid(s, c, inp, out, blank, s.Count()) && s.Has(x, y, z)
    ensures Flat(s, x, y, z) < |inp| && Place(s, c, x, y, z) < |out|
    ensures out[Place(s, c, x, y, z)] == inp[Flat(s, x, y, z)]
    // column x + X (z mod c) and row y + Y (z div c) of an output of width X c
    ensures Place(s, c, x, y, z) == ((z / c) * s.n1 + y) * (s.n0 * c) + ((z % c) * s.n0 + x)
    ensures Flat(s, x, y, z) == (z * s.n1 + y) * s.n0 + x
  {
    FlatInside(s, x, y, z);
    PlaceInside(s, c, x, y, z);
    PlaceAtFlat(s, c, x, y, z);
    assert Places(s, c)(Flat(s, x, y, z)) == Place(s, c, x, y, z);
  }

  /** Nothing is lost: the unfolded image determines the cube. */
  lemma {:induction false} UnfoldingLosesNothing<T>(s: Shape, c: nat, a: seq<T>, b: seq<T>, out: seq<T>, blank: T)
    requires c >= 1 && Laid(s, c, a, out, blank, s.Count()) && Laid(s, c, b, out, blank, s.Count())
    ensures a == b
  {
    forall q | 0 <= q < |a| ensures a[q] == b[q] {
      var x, y, z := FlatOnto(s, q);
      PixelInPlace(s, c, a, out, blank, x, y, z);
      PixelInPlace(s, c, b, out, blank, x, y, z);
    }
  }

  /** The output has one row of planes too many when the planes fill their rows. */
  lemma {:induction false} LastRowBlank<T>(s: Shape, c: nat, inp: seq<T>, out: seq<T>, blank: T, u: nat, v: nat)
    requires c >= 1 && Laid(s, c, inp, out, blank, s.Count()) && s.n0 > 0 && s.n1 > 0
    requires s.n2 % c == 0 && OutShape(s, c).Has(u, v, 0) && v >= (s.n2 / c) * s.n1
    ensures Flat(OutShape(s, c), u, v, 0) < |out| && out[Flat(OutShape(s, c), u, v, 0)] == blank
  {
    var p := Flat(OutShape(s, c), u, v, 0);
    FlatInside(OutShape(s, c), u, v, 0);
    if Taken(Places(s, c), s.Count(), p) {
      var t: nat :| t < s.Count() && Places(s, c)(t) == p;
      var x, y, z := FlatOnto(s, t);
      PlaceAtFlat(s, c, x, y, z);
      PlaceInside(s, c, x, y, z);
      FlatInjective(OutShape(s, c), Col(s, c, x, z), Row(s, c, y, z), 0, u, v, 0);
      RowBefore(s, c, y, z);
    }
  }

  lemma {:induction false} RowBefore(s: Shape, c: nat, y: nat, z: nat)
    requires c >= 1 && y < s.n1 && z < s.n2 && s.n2 % c == 0
    ensures Row(s, c, y, z) < (s.n2 / c) * s.n1
  {
    var q, r, m := z / c, z % c, s.n2 / c;
    DivMod(z, c);
    DivMod(s.n2, c);
    if q >= m { AtLeast(m, q, c); }
    InRow(q, y, m, s.n1);
  }
}
