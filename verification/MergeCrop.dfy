/** Joining two images along an axis, and cutting a box out of an image. */
module MergeCrop {
  import opened Index
  import opened Cubes

  // ----- merge

  /** Shapes that differ in one axis at most, with at least one pixel. */
  ghost predicate Joinable(s0: Shape, s1: Shape, axis: nat) {
    && axis < 3 && s0.n0 >= 1 && s0.n1 >= 1 && s0.n2 >= 1 && s1.Size(axis) >= 1
    && s1 == s0.Resized(axis, s1.Size(axis))
  }

  function Joined(s0: Shape, s1: Shape, axis: nat): Shape
    requires axis < 3
  {
    s0.Resized(axis, s0.Size(axis) + s1.Size(axis))
  }

  /** out is in1 put behind in0 along the axis. */
  ghost predicate IsMerge<T>(a: Image<T>, b: Image<T>, axis: nat, out: Image<T>) {
    && axis < 3 && a.Valid() && b.Valid() && out.Valid() && Joinable(a.shape, b.shape, axis)
    && out.shape == Joined(a.shape, b.shape, axis)
    && forall i: nat, j: nat, k: nat :: out.shape.Has(i, j, k) ==> out.At(i, j, k) == MergeAt(a, b, axis, i, j, k)
  }

  function MergeAt<T>(a: Image<T>, b: Image<T>, axis: nat, i: nat, j: nat, k: nat): T
    requires a.Valid() && b.Valid() && Joinable(a.shape, b.shape, axis) && Joined(a.shape, b.shape, axis).Has(i, j, k)
  {
    if a.shape.Has(i, j, k) then a.At(i, j, k)
    else if axis == 0 then b.At(i - a.shape.n0, j, k)
    else if axis == 1 then b.At(i, j - a.shape.n1, k)
    else b.At(i, j, k - a.shape.n2)
  }

  /** The output has block m of x, followed by block m of y, after m such pairs. */
  ghost predicate PairAt<T>(x: seq<T>, y: seq<T>, out: seq<T>, a: nat, b: nat, m: nat) {
    var p, q := Rows(m, a), Rows(m, b);
    && p + a <= |x| && q + b <= |y| && p + q + a + b <= |out|
    && (forall t: nat :: p <= t < p + a ==> out[q + t] == x[t])
    && (forall t: nat :: q <= t < q + b ==> out[p + a + t] == y[t])
  }

  ghost predicate Interleaved<T>(x: seq<T>, y: seq<T>, out: seq<T>, a: nat, b: nat, n: nat) {
    forall m: nat :: m < n ==> PairAt(x, y, out, a, b, m)
  }

  lemma {:induction false} PairElement<T>(x: seq<T>, y: seq<T>, out: seq<T>, a: nat, b: nat, m: nat, t: nat)
    requires PairAt(x, y, out, a, b, m) && t < a + b
    ensures out[Rows(m, a) + Rows(m, b) + t] == if t < a then x[Rows(m, a) + t] else y[Rows(m, b) + (t - a)]
  {
    var p, q := Rows(m, a), Rows(m, b);
    if t < a {
      assert out[q + (p + t)] == x[p + t];
    } else {
      assert out[p + a + (q + (t - a))] == y[q + (t - a)];
    }
  }

  /** Another pair behind the first m keeps these. */
  lemma {:induction false} PairsKept<T>(x: seq<T>, y: seq<T>, out: seq<T>, out': seq<T>, a: nat, b: nat, m: nat)
    requires Interleaved(x, y, out, a, b, m) && PairAt(x, y, out', a, b, m)
    requires Rows(m, a) + Rows(m, b) <= |out| == |out'|
    requires out'[..Rows(m, a) + Rows(m, b)] == out[..Rows(m, a) + Rows(m, b)]
    ensures Interleaved(x, y, out', a, b, m + 1)
  {
    forall r: nat | r < m + 1 ensures PairAt(x, y, out', a, b, r) {
      if r < m {
        assert PairAt(x, y, out, a, b, r);
        RowsGrow(r, m, a);
        RowsGrow(r, m, b);
        PairKept(x, y, out, out', a, b, r, Rows(m, a) + Rows(m, b));
      }
    }
  }

  lemma {:induction false} PairKept<T>(x: seq<T>, y: seq<T>, out: seq<T>, out': seq<T>, a: nat, b: nat, r: nat, to: nat)
    requires PairAt(x, y, out, a, b, r) && Rows(r, a) + Rows(r, b) + a + b <= to <= |out| == |out'| && out'[..to] == out[..to]
    ensures PairAt(x, y, out', a, b, r)
  {
    assert forall i :: 0 <= i < to ==> out'[i] == out'[..to][i] == out[..to][i] == out[i];
  }

  /** Pixels in a block of the first and of the second image, and the number of blocks. */
  function Block(s: Shape, axis: nat): nat {
    if axis == 0 then s.n0 else if axis == 1 then s.n1 * s.n0 else s.Count()
  }

  function Blocks(s: Shape, axis: nat): nat {
    if axis == 0 then s.n2 * s.n1 else if axis == 1 then s.n2 else 1
  }

  lemma {:induction false} BlocksFill(s: Shape, axis: nat)
    ensures Rows(Blocks(s, axis), Block(s, axis)) == s.Count()
  {
    RowsProduct(Blocks(s, axis), Block(s, axis));
  }

  /** Interleaving the blocks puts every pixel in its place. */
  lemma {:induction false} InterleavedIsMerge<T>(a: Image<T>, b: Image<T>, axis: nat, out: Image<T>)
    requires axis < 3 && a.Valid() && b.Valid() && Joinable(a.shape, b.shape, axis) && out.shape == Joined(a.shape, b.shape, axis)
    requires out.Valid()
    requires Interleaved(a.pix, b.pix, out.pix, Block(a.shape, axis), Block(b.shape, axis), Blocks(a.shape, axis))
    ensures IsMerge(a, b, axis, out)
  {
    forall i: nat, j: nat, k: nat | out.shape.Has(i, j, k)
      ensures out.At(i, j, k) == MergeAt(a, b, axis, i, j, k)
    {
      var m, t := JoinedPlace(a.shape, b.shape, axis, i, j, k);
      assert PairAt(a.pix, b.pix, out.pix, Block(a.shape, axis), Block(b.shape, axis), m);
      PairElement(a.pix, b.pix, out.pix, Block(a.shape, axis), Block(b.shape, axis), m, t);
    }
  }

  lemma {:induction false} JoinedCount(s0: Shape, s1: Shape, axis: nat)
    requires Joinable(s0, s1, axis)
    ensures Joined(s0, s1, axis).Count() == s0.Count() + s1.Count()
  {
    if axis == 0 {
      assert s0.n2 * s0.n1 * (s0.n0 + s1.n0) == s0.n2 * s0.n1 * s0.n0 + s0.n2 * s0.n1 * s1.n0;
    } else if axis == 1 {
      assert s0.n2 * (s0.n1 + s1.n1) * s0.n0 == s0.n2 * s0.n1 * s0.n0 + s0.n2 * s1.n1 * s0.n0;
    } else {
      assert (s0.n2 + s1.n2) * s0.n1 * s0.n0 == s0.n2 * s0.n1 * s0.n0 + s1.n2 * s0.n1 * s0.n0;
    }
  }

  /** Output pixel (i, j, k) is element t of block pair m, and so is the input pixel that belongs there. */
  ghost predicate Placed(s0: Shape, s1: Shape, axis: nat, i: nat, j: nat, k: nat, m: nat, t: nat)
    requires Joinable(s0, s1, axis) && Joined(s0, s1, axis).Has(i, j, k)
  {
    var p, q := Block(s0, axis), Block(s1, axis);
    && m < Blocks(s0, axis) && t < p + q && (t < p <==> s0.Has(i, j, k))
    && Flat(Joined(s0, s1, axis), i, j, k) == Rows(m, p) + Rows(m, q) + t
    && if s0.Has(i, j, k) then Flat(s0, i, j, k) == Rows(m, p) + t
       else if axis == 0 then Flat(s1, i - s0.n0, j, k) == Rows(m, q) + (t - p)
       else if axis == 1 then Flat(s1, i, j - s0.n1, k) == Rows(m, q) + (t - p)
       else Flat(s1, i, j, k - s0.n2) == Rows(m, q) + (t - p)
  }

  lemma {:induction false} JoinedPlace(s0: Shape, s1: Shape, axis: nat, i: nat, j: nat, k: nat) returns (m: nat, t: nat)
    requires Joinable(s0, s1, axis) && Joined(s0, s1, axis).Has(i, j, k)
    ensures Placed(s0, s1, axis, i, j, k, m, t)
  {
    if axis == 0 {
      m, t := JoinedPlace0(s0, s1, i, j, k);
    } else if axis == 1 {
      m, t := JoinedPlace1(s0, s1, i, j, k);
    } else {
      m, t := JoinedPlace2(s0, s1, i, j, k);
    }
  }

  lemma {:induction false} JoinedPlace0(s0: Shape, s1: Shape, i: nat, j: nat, k: nat) returns (m: nat, t: nat)
    requires Joinable(s0, s1, 0) && Joined(s0, s1, 0).Has(i, j, k)
    ensures Placed(s0, s1, 0, i, j, k, m, t)
  {
    m, t := k * s0.n1 + j, i;
    InRow(k, j, s0.n2, s0.n1);
    RowsProduct(m, s0.n0);
    RowsProduct(m, s1.n0);
    Split3(m, s0.n0, s1.n0);
    assert Flat(Joined(s0, s1, 0), i, j, k) == m * (s0.n0 + s1.n0) + t;
  }

  lemma {:induction false} JoinedPlace1(s0: Shape, s1: Shape, i: nat, j: nat, k: nat) returns (m: nat, t: nat)
    requires Joinable(s0, s1, 1) && Joined(s0, s1, 1).Has(i, j, k)
    ensures Placed(s0, s1, 1, i, j, k, m, t)
  {
    m, t := k, j * s0.n0 + i;
    PlaneOfPair(k, s0.n1, s1.n1, j, s0.n0, i);
    PlacesOfPair(s0, s1, i, j, k);
  }

  /** The places and the blocks when axis 1 is joined, in terms of the sizes. */
  lemma {:induction false} PlacesOfPair(s0: Shape, s1: Shape, i: nat, j: nat, k: nat)
    requires Joinable(s0, s1, 1) && Joined(s0, s1, 1).Has(i, j, k)
    ensures var x, n, n' := s0.n0, s0.n1, s1.n1;
            && Flat(Joined(s0, s1, 1), i, j, k) == (k * (n + n') + j) * x + i && Flat(s0, i, j, k) == (k * n + j) * x + i
            && (j >= n ==> Flat(s1, i, j - n, k) == (k * n' + (j - n)) * x + i)
            && Block(s0, 1) == n * x && Block(s1, 1) == n' * x
    ensures k < Blocks(s0, 1) && (s0.Has(i, j, k) <==> j < s0.n1)
  {
  }

  /** Element (i, j) of plane k, when n rows of the first image are followed by n' of the second. */
  lemma {:induction false} PlaneOfPair(k: nat, n: nat, n': nat, j: nat, x: nat, i: nat)
    requires j < n + n' && i < x
    ensures 0 <= n * x && 0 <= n' * x && 0 <= j * x + i < n * x + n' * x && (j * x + i < n * x <==> j < n)
    ensures (k * (n + n') + j) * x + i == Rows(k, n * x) + Rows(k, n' * x) + (j * x + i)
    ensures j < n ==> (k * n + j) * x + i == Rows(k, n * x) + (j * x + i)
    ensures j >= n ==> (k * n' + (j - n)) * x + i == Rows(k, n' * x) + (j * x + i - n * x)
  {
    RowsProduct(k, n * x);
    RowsProduct(k, n' * x);
    RowOfPair(k, n, n', j, x, i);
    if j < n {
      RowOfBlocks(k, n, j, x, i);
    } else {
      RowOfBlocks(k, n', j - n, x, i);
      Split(j - n, n, x);
    }
  }

  lemma {:induction false} RowOfPair(k: nat, n: nat, n': nat, j: nat, x: nat, i: nat)
    requires j < n + n' && i < x
    ensures (k * (n + n') + j) * x + i == k * (n * x) + k * (n' * x) + (j * x + i)
    ensures 0 <= j * x + i < n * x + n' * x && (j * x + i < n * x <==> j < n)
  {
    InRow(j, i, n + n', x);
    Split(n, n', x);
    RowOfBlocks(k, n + n', j, x, i);
    Split3(k, n * x, n' * x);
    if j < n { InRow(j, i, n, x); } else { AtLeast(n, j, x); }
  }

  lemma {:induction false} Split(a: nat, b: nat, x: nat)
    ensures (a + b) * x == a * x + b * x
  {
  }

  lemma {:induction false} Split3(k: nat, a: nat, b: nat)
    ensures k * (a + b) == k * a + k * b
  {
  }

  lemma {:induction false} RowOfBlocks(k: nat, n: nat, j: nat, x: nat, i: nat)
    ensures (k * n + j) * x + i == k * (n * x) + (j * x + i)
  {
    assert (k * n + j) * x == k * n * x + j * x;
  }

  lemma {:induction false} JoinedPlace2(s0: Shape, s1: Shape, i: nat, j: nat, k: nat) returns (m: nat, t: nat)
    requires Joinable(s0, s1, 2) && Joined(s0, s1, 2).Has(i, j, k)
    ensures Placed(s0, s1, 2, i, j, k, m, t)
  {
    m, t := 0, Flat(s0, i, j, k);
    if k < s0.n2 {
      FlatInside(s0, i, j, k);
    } else {
      PlanesBack(k, s0.n2, s0.n1, j, s0.n0, i);
      FlatInside(s1, i, j, k - s0.n2);
    }
  }

  lemma {:induction false} PlanesBack(k: nat, z: nat, n: nat, j: nat, x: nat, i: nat)
    requires z <= k
    ensures ((k - z) * n + j) * x + i == (k * n + j) * x + i - z * n * x
  {
    assert (k - z) * n == k * n - z * n;
    assert (k * n - z * n + j) * x == (k * n + j) * x - z * n * x;
  }

  /** The number of axes of the output. */
  method CountAxes(o: Shape) returns (naxis: nat)
    ensures naxis == if o.n2 > 1 then 3 else if o.n1 > 1 then 2 else 1
  {
    naxis := 1;
    if o.n1 > 1 {
      naxis := 2;
    }
    if o.n2 > 1 {
      naxis := 3;
    }
  }

  /** Copies n elements. */
  method CopyBlock<T>(src: array<T>, from: nat, dst: array<T>, to: nat, n: nat)
    requires src != dst && from + n <= src.Length && to + n <= dst.Length
    modifies dst
    ensures forall t :: 0 <= t < to ==> dst[t] == old(dst[t])
    ensures forall t :: from <= t < from + n ==> dst[to + (t - from)] == src[t]
  {
    ghost var before := dst[..];
    for i := 0 to n
      invariant forall t :: 0 <= t < to ==> dst[t] == before[t]
      invariant forall t :: from <= t < from + i ==> dst[to + (t - from)] == src[t]
    {
      dst[to + i] := src[from + i];
    }
  }

  /** The whole of the second image behind the whole of the first. */
  method AppendImage<T>(in0: array<T>, in1: array<T>, out: array<T>)
    requires out != in0 && out != in1 && out.Length == in0.Length + in1.Length
    modifies out
    ensures out[..] == in0[..] + in1[..]
  {
    CopyBlock(in0, 0, out, 0, in0.Length);
    CopyBlock(in1, 0, out, in0.Length, in1.Length);
  }

  /** One block of each image. */
  method CopyPair<T>(in0: array<T>, p: nat, in1: array<T>, q: nat, out: array<T>, a: nat, b: nat, ghost m: nat)
    requires out != in0 && out != in1 && p + a <= in0.Length && q + b <= in1.Length && p + q + a + b <= out.Length
    requires p == Rows(m, a) && q == Rows(m, b)
    modifies out
    ensures out[..p + q] == old(out[..p + q]) && PairAt(in0[..], in1[..], out[..], a, b, m)
  {
    CopyBlock(in0, p, out, p + q, a);
    CopyBlock(in1, q, out, p + q + a, b);
  }

  /** A block of each image in turn, until the output is full. */
  method InterleaveBlocks<T>(in0: array<T>, in1: array<T>, out: array<T>, a: nat, b: nat, ghost n: nat)
    requires out != in0 && out != in1 && a + b > 0
    requires in0.Length == Rows(n, a) && in1.Length == Rows(n, b) && out.Length == in0.Length + in1.Length
    modifies out
    ensures Interleaved(in0[..], in1[..], out[..], a, b, n)
  {
    var pixiout, pixiin0, pixiin1 := 0, 0, 0;
    ghost var m := 0;
    while pixiout < out.Length
      invariant m <= n && pixiin0 == Rows(m, a) <= in0.Length && pixiin1 == Rows(m, b) <= in1.Length
      invariant pixiout == pixiin0 + pixiin1
      invariant Interleaved(in0[..], in1[..], out[..], a, b, m)
      decreases n - m
    {
      RowsGrow(m, n, a);
      RowsGrow(m, n, b);
      ghost var before := out[..];
      CopyPair(in0, pixiin0, in1, pixiin1, out, a, b, m);
      PairsKept(in0[..], in1[..], before, out[..], a, b, m);
      pixiin0 := pixiin0 + a;
      pixiin1 := pixiin1 + b;
      pixiout := pixiout + a + b;
      m := m + 1;
    }
    if m < n {
      RowsGrow(m, n, a);
      RowsGrow(m, n, b);
    }
  }

  /** Merges two images along an axis. */
  method Merge<T>(in0: array<T>, s0: Shape, in1: array<T>, s1: Shape, axis: nat, blank: T) returns (out: array<T>, o: Shape)
    requires Joinable(s0, s1, axis) && in0.Length == s0.Count() && in1.Length == s1.Count()
    ensures fresh(out) && IsMerge(Image(s0, in0[..]), Image(s1, in1[..]), axis, Image(o, out[..]))
  {
    o := Joined(s0, s1, axis);
    var naxis := CountAxes(o);
    ghost var n := Blocks(s0, axis);
    BlocksFill(s0, axis);
    BlocksFill(s1, axis);
    JoinedCount(s0, s1, axis);
    out := new T[o.Count()](_ => blank);
    if axis == naxis - 1 {
      OneBlock(in0[..], in1[..], s0, s1, axis);
      AppendImage(in0, in1, out);
    } else {
      var a, b := s0.n0, s1.n0;
      if axis == 1 {
        a, b := s0.n1 * s0.n0, s1.n1 * s1.n0;
      }
      BlockPositive(s0, axis);
      InterleaveBlocks(in0, in1, out, a, b, n);
    }
    InterleavedIsMerge(Image(s0, in0[..]), Image(s1, in1[..]), axis, Image(o, out[..]));
  }

  lemma {:induction false} BlockPositive(s: Shape, axis: nat)
    requires s.n0 >= 1 && s.n1 >= 1 && s.n2 >= 1
    ensures Block(s, axis) >= 1
  {
    InRow(0, 0, s.n1, s.n0);
    FlatInside(s, 0, 0, 0);
  }

  /** When the axis is the last one there is one block. */
  lemma {:induction false} OneBlock<T>(x: seq<T>, y: seq<T>, s0: Shape, s1: Shape, axis: nat)
    requires Joinable(s0, s1, axis) && |x| == s0.Count() && |y| == s1.Count()
    requires axis == 0 ==> s0.n1 == 1 && s0.n2 == 1
    requires axis == 1 ==> s0.n2 == 1
    ensures Interleaved(x, y, x + y, Block(s0, axis), Block(s1, axis), Blocks(s0, axis))
  {
    var p, q := Block(s0, axis), Block(s1, axis);
    assert p == |x| && q == |y| && Rows(0, p) == 0 && Rows(0, q) == 0;
    assert PairAt(x, y, x + y, p, q, 0);
  }

  // ----- crop

  /** A corner of a box, which may lie outside the image. */
  datatype Corner = Corner(c0: int, c1: int, c2: int)

  /** The pixel of the box that starts at the corner. */
  function CropAt<T>(img: Image<T>, start: Corner, blank: T, i: nat, j: nat, k: nat): T
    requires img.Valid()
  {
    var x, y, z := i + start.c0, j + start.c1, k + start.c2;
    if x >= 0 && y >= 0 && z >= 0 && img.shape.Has(x, y, z) then img.At(x, y, z) else blank
  }

  /** out is the box of img that starts at the corner; pixels outside the image are blank. */
  ghost predicate IsCrop<T>(img: Image<T>, start: Corner, blank: T, out: Image<T>) {
    && img.Valid() && out.Valid()
    && forall i: nat, j: nat, k: nat :: out.shape.Has(i, j, k) ==> out.At(i, j, k) == CropAt(img, start, blank, i, j, k)
  }

  /** The output so far: pixels before (x, y, z) are done, the others blank. */
  ghost predicate Cut<T>(img: Image<T>, start: Corner, blank: T, out: Image<T>, x: int, y: int, z: int) {
    && img.Valid() && out.Valid()
    && forall i: nat, j: nat, k: nat :: out.shape.Has(i, j, k) ==>
         out.At(i, j, k) == if Earlier(i + start.c0, j + start.c1, k + start.c2, x, y, z) then CropAt(img, start, blank, i, j, k) else blank
  }

  /** Moving on over pixels that lie outside the image. */
  lemma {:induction false} CutSkip<T>(img: Image<T>, start: Corner, blank: T, out: Image<T>,
                                      x: int, y: int, z: int, x': int, y': int, z': int)
    requires Cut(img, start, blank, out, x, y, z)
    requires !Earlier(x', y', z', x, y, z)
    requires forall i: nat, j: nat, k: nat :: out.shape.Has(i, j, k) && Between(start, i, j, k, x, y, z, x', y', z') ==>
               CropAt(img, start, blank, i, j, k) == blank
    ensures Cut(img, start, blank, out, x', y', z')
  {
    forall i: nat, j: nat, k: nat | out.shape.Has(i, j, k)
      ensures out.At(i, j, k) ==
              if Earlier(i + start.c0, j + start.c1, k + start.c2, x', y', z') then CropAt(img, start, blank, i, j, k) else blank
    {
      assert Between(start, i, j, k, x, y, z, x', y', z') ==> CropAt(img, start, blank, i, j, k) == blank;
    }
  }

  predicate Between(start: Corner, i: nat, j: nat, k: nat, x: int, y: int, z: int, x': int, y': int, z': int) {
    !Earlier(i + start.c0, j + start.c1, k + start.c2, x, y, z) && Earlier(i + start.c0, j + start.c1, k + start.c2, x', y', z')
  }

  /** One pixel is copied. */
  lemma {:induction false} CutPixel<T>(img: Image<T>, start: Corner, blank: T, out: Image<T>, x: nat, y: nat, z: nat, q: nat)
    requires Cut(img, start, blank, out, x, y, z) && img.shape.Has(x, y, z)
    requires start.c0 <= x && start.c1 <= y && start.c2 <= z && out.shape.Has(x - start.c0, y - start.c1, z - start.c2)
    requires q == Flat(out.shape, x - start.c0, y - start.c1, z - start.c2) && q < |out.pix|
    ensures Cut(img, start, blank, Image(out.shape, out.pix[q := img.At(x, y, z)]), x, y, z + 1)
  {
    var out' := Image(out.shape, out.pix[q := img.At(x, y, z)]);
    forall i: nat, j: nat, k: nat | out.shape.Has(i, j, k)
      ensures out'.At(i, j, k) ==
              if Earlier(i + start.c0, j + start.c1, k + start.c2, x, y, z + 1) then CropAt(img, start, blank, i, j, k) else blank
    {
      AtUpdate(out, x - start.c0, y - start.c1, z - start.c2, img.At(x, y, z), i, j, k);
      assert out.At(i, j, k) == if Earlier(i + start.c0, j + start.c1, k + start.c2, x, y, z) then CropAt(img, start, blank, i, j, k) else blank;
    }
  }

  function Max(a: int, b: int): int {
    if a < b then b else a
  }

  function Min(a: int, b: int): int {
    if b < a then b else a
  }

  /** One column of the box along the last axis. */
  method CropColumn<T>(inp: array<T>, s: Shape, start: Corner, end: Corner, out: array<T>, o: Shape, ghost blank: T, x: nat, y: nat)
    requires out != inp && inp.Length == s.Count() && x < s.n0 && y < s.n1
    requires start.c0 <= x < end.c0 && start.c1 <= y < end.c1 && start.c2 <= end.c2
    requires o.n0 == end.c0 - start.c0 && o.n1 == end.c1 - start.c1 && o.n2 == end.c2 - start.c2
    requires Cut(Image(s, inp[..]), start, blank, Image(o, out[..]), x, y, start.c2)
    modifies out
    ensures Cut(Image(s, inp[..]), start, blank, Image(o, out[..]), x, y + 1, start.c2)
  {
    var z := Max(start.c2, 0);
    var ez := Min(end.c2, s.n2);
    CutSkip(Image(s, inp[..]), start, blank, Image(o, out[..]), x, y, start.c2, x, y, z);
    while z < ez
      invariant z >= 0 && z >= start.c2
      invariant Cut(Image(s, inp[..]), start, blank, Image(o, out[..]), x, y, z)
    {
      FlatInside(s, x, y, z);
      FlatInside(o, x - start.c0, y - start.c1, z - start.c2);
      var q := Flat(o, x - start.c0, y - start.c1, z - start.c2);
      CutPixel(Image(s, inp[..]), start, blank, Image(o, out[..]), x, y, z, q);
      ghost var before := out[..];
      out[q] := inp[Flat(s, x, y, z)];
      assert out[..] == before[q := Image(s, inp[..]).At(x, y, z)];
      z := z + 1;
    }
    CutSkip(Image(s, inp[..]), start, blank, Image(o, out[..]), x, y, z, x, y + 1, start.c2);
  }

  /** One plane of the box, x fixed. */
  method CropPlane<T>(inp: array<T>, s: Shape, start: Corner, end: Corner, out: array<T>, o: Shape, ghost blank: T, x: nat)
    requires out != inp && inp.Length == s.Count() && x < s.n0
    requires start.c0 <= x < end.c0 && start.c1 <= end.c1 && start.c2 <= end.c2
    requires o.n0 == end.c0 - start.c0 && o.n1 == end.c1 - start.c1 && o.n2 == end.c2 - start.c2
    requires Cut(Image(s, inp[..]), start, blank, Image(o, out[..]), x, start.c1, start.c2)
    modifies out
    ensures Cut(Image(s, inp[..]), start, blank, Image(o, out[..]), x + 1, start.c1, start.c2)
  {
    var y := Max(start.c1, 0);
    var ey := Min(end.c1, s.n1);
    CutSkip(Image(s, inp[..]), start, blank, Image(o, out[..]), x, start.c1, start.c2, x, y, start.c2);
    while y < ey
      invariant y >= 0 && y >= start.c1
      invariant Cut(Image(s, inp[..]), start, blank, Image(o, out[..]), x, y, start.c2)
    {
      CropColumn(inp, s, start, end, out, o, blank, x, y);
      y := y + 1;
    }
    CutSkip(Image(s, inp[..]), start, blank, Image(o, out[..]), x, y, start.c2, x + 1, start.c1, start.c2);
  }

  /** Cuts the box from `start` up to `end` out of an image. */
  method Crop<T>(inp: array<T>, s: Shape, start: Corner, end: Corner, blank: T) returns (out: array<T>, o: Shape)
    requires inp.Length == s.Count() && start.c0 <= end.c0 && start.c1 <= end.c1 && start.c2 <= end.c2
    ensures fresh(out) && o == Shape(end.c0 - start.c0, end.c1 - start.c1, end.c2 - start.c2)
    ensures IsCrop(Image(s, inp[..]), start, blank, Image(o, out[..]))
  {
    o := Shape(end.c0 - start.c0, end.c1 - start.c1, end.c2 - start.c2);
    out := new T[o.Count()](_ => blank);
    AllBlank(Image(s, inp[..]), start, blank, Image(o, out[..]));
    var x := Max(start.c0, 0);
    var ex := Min(end.c0, s.n0);
    CutSkip(Image(s, inp[..]), start, blank, Image(o, out[..]), start.c0, start.c1, start.c2, x, start.c1, start.c2);
    while x < ex
      invariant x >= 0 && x >= start.c0
      invariant Cut(Image(s, inp[..]), start, blank, Image(o, out[..]), x, start.c1, start.c2)
    {
      CropPlane(inp, s, start, end, out, o, blank, x);
      x := x + 1;
    }
    var last := Max(x, end.c0);
    CutSkip(Image(s, inp[..]), start, blank, Image(o, out[..]), x, start.c1, start.c2, last, start.c1, start.c2);
  }

  lemma {:induction false} AllBlank<T>(img: Image<T>, start: Corner, blank: T, out: Image<T>)
    requires img.Valid() && out.Valid() && forall q :: 0 <= q < |out.pix| ==> out.pix[q] == blank
    ensures Cut(img, start, blank, out, start.c0, start.c1, start.c2)
  {
    forall i: nat, j: nat, k: nat | out.shape.Has(i, j, k) ensures out.At(i, j, k) == blank {
      FlatInside(out.shape, i, j, k);
    }
  }

  /** A pixel of the box is the pixel of the image the corner and its own coordinates name, or blank when that is outside. */
  lemma {:induction false} CroppedPixel<T>(img: Image<T>, start: Corner, blank: T, out: Image<T>, i: nat, j: nat, k: nat)
    requires IsCrop(img, start, blank, out) && out.shape.Has(i, j, k)
    ensures var x, y, z := i + start.c0, j + start.c1, k + start.c2;
            if 0 <= x < img.shape.n0 && 0 <= y < img.shape.n1 && 0 <= z < img.shape.n2
            then out.At(i, j, k) == img.At(x, y, z) else out.At(i, j, k) == blank
  {
    assert out.At(i, j, k) == CropAt(img, start, blank, i, j, k);
  }

  /** A pixel of a merged image is one of the first image, or one of the second beyond its end. */
  lemma {:induction false} MergedPixel<T>(a: Image<T>, b: Image<T>, axis: nat, out: Image<T>, i: nat, j: nat, k: nat)
    requires IsMerge(a, b, axis, out) && out.shape.Has(i, j, k)
    ensures var x, y, z := if axis == 0 then i - a.shape.n0 else i, if axis == 1 then j - a.shape.n1 else j,
                           if axis == 2 then k - a.shape.n2 else k;
            if x < 0 || y < 0 || z < 0 || !b.shape.Has(x, y, z) then a.shape.Has(i, j, k) && out.At(i, j, k) == a.At(i, j, k)
            else out.At(i, j, k) == b.At(x, y, z)
  {
    assert out.At(i, j, k) == MergeAt(a, b, axis, i, j, k);
  }

  /** Main result: cropping a merged image at the seam gives back each of the two. */
  lemma {:induction false} CropAtSeam<T>(a: Image<T>, b: Image<T>, axis: nat, merged: Image<T>, blank: T, outA: Image<T>, outB: Image<T>)
    requires IsMerge(a, b, axis, merged)
    requires outA.shape == a.shape && IsCrop(merged, Corner(0, 0, 0), blank, outA)
    requires outB.shape == b.shape && IsCrop(merged, SeamCorner(a.shape, axis), blank, outB)
    ensures outA == a && outB == b
  {
    CropFirst(a, b, axis, merged, blank, outA);
    CropSecond(a, b, axis, merged, blank, outB);
  }

  lemma {:induction false} CropFirst<T>(a: Image<T>, b: Image<T>, axis: nat, merged: Image<T>, blank: T, out: Image<T>)
    requires IsMerge(a, b, axis, merged) && out.shape == a.shape && IsCrop(merged, Corner(0, 0, 0), blank, out)
    ensures out == a
  {
    forall i: nat, j: nat, k: nat | a.shape.Has(i, j, k) ensures out.At(i, j, k) == a.At(i, j, k) {
      assert merged.shape.Has(i, j, k);
      assert merged.At(i, j, k) == MergeAt(a, b, axis, i, j, k);
    }
    SamePixels(out, a);
  }

  lemma {:induction false} CropSecond<T>(a: Image<T>, b: Image<T>, axis: nat, merged: Image<T>, blank: T, out: Image<T>)
    requires IsMerge(a, b, axis, merged) && out.shape == b.shape && IsCrop(merged, SeamCorner(a.shape, axis), blank, out)
    ensures out == b
  {
    var c := SeamCorner(a.shape, axis);
    forall i: nat, j: nat, k: nat | b.shape.Has(i, j, k) ensures out.At(i, j, k) == b.At(i, j, k) {
      var x, y, z := i + c.c0, j + c.c1, k + c.c2;
      assert merged.shape.Has(x, y, z);
      assert merged.At(x, y, z) == MergeAt(a, b, axis, x, y, z) == b.At(i, j, k);
    }
    SamePixels(out, b);
  }

  function SeamCorner(s: Shape, axis: nat): Corner {
    Corner(if axis == 0 then s.n0 else 0, if axis == 1 then s.n1 else 0, if axis == 2 then s.n2 else 0)
  }

  /** The other way round: an image cut in two along an axis and merged again is the image. */
  lemma {:induction false} MergeOfParts<T>(img: Image<T>, axis: nat, blank: T, a: Image<T>, b: Image<T>, merged: Image<T>)
    requires img.Valid() && axis < 3 && img.shape == Joined(a.shape, b.shape, axis)
    requires IsCrop(img, Corner(0, 0, 0), blank, a) && IsCrop(img, SeamCorner(a.shape, axis), blank, b)
    requires IsMerge(a, b, axis, merged)
    ensures merged == img
  {
    forall i: nat, j: nat, k: nat | img.shape.Has(i, j, k) ensures merged.At(i, j, k) == img.At(i, j, k) {
      assert merged.At(i, j, k) == MergeAt(a, b, axis, i, j, k);
      PartAt(img, axis, blank, a, b, i, j, k);
    }
    SamePixels(merged, img);
  }

  /** Each pixel of the image is in the one part or the other. */
  lemma {:induction false} PartAt<T>(img: Image<T>, axis: nat, blank: T, a: Image<T>, b: Image<T>, i: nat, j: nat, k: nat)
    requires img.Valid() && axis < 3 && img.shape == Joined(a.shape, b.shape, axis) && Joinable(a.shape, b.shape, axis)
    requires IsCrop(img, Corner(0, 0, 0), blank, a) && IsCrop(img, SeamCorner(a.shape, axis), blank, b)
    requires img.shape.Has(i, j, k)
    ensures MergeAt(a, b, axis, i, j, k) == img.At(i, j, k)
  {
    if a.shape.Has(i, j, k) {
      assert a.At(i, j, k) == CropAt(img, Corner(0, 0, 0), blank, i, j, k);
    } else {
      var c := SeamCorner(a.shape, axis);
      var x, y, z := i - c.c0, j - c.c1, k - c.c2;
      assert b.shape.Has(x, y, z);
      assert b.At(x, y, z) == CropAt(img, c, blank, x, y, z);
    }
  }
}
