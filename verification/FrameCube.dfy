/** A cube broken into named frames, and frames assembled into a cube. */
module FrameCube {
  import opened Cubes
  import opened Decimals
  import opened Wrappers

  /** The name given to frame k of a cube: "%s_%5u", blanks replaced by zeros. */
  function BrokenName(name: string, k: nat): string {
    Zeroed(name + "_" + Padded(' ', k))
  }

  /** The name looked for as frame k behind a prefix: "%s%05ld". */
  function FrameName(prefix: string, k: nat): string {
    prefix + Padded('0', k)
  }

  lemma {:induction false} BrokenNameIs(name: string, k: nat)
    ensures BrokenName(name, k) == Zeroed(name) + "_" + Padded('0', k)
  {
    ZeroedPadded(k);
    assert Zeroed(name + "_" + Padded(' ', k)) == Zeroed(name) + "_" + Zeroed(Padded(' ', k));
  }

  /** The two formats agree, for every frame number, exactly on names without a blank. */
  lemma {:induction false} NamesAgree(name: string, k: nat)
    ensures BrokenName(name, k) == FrameName(name + "_", k) <==> !HasBlank(name)
  {
    BrokenNameIs(name, k);
    ZeroedSame(name);
    var x, y := BrokenName(name, k), FrameName(name + "_", k);
    if x == y {
      assert x[..|name|] == Zeroed(name) && y[..|name|] == name;
    } else {
      assert Zeroed(name) == name ==> x == y;
    }
  }

  /** Different frames have different names. */
  lemma {:induction false} BrokenNameInjective(name: string, j: nat, k: nat)
    ensures BrokenName(name, j) == BrokenName(name, k) ==> j == k
  {
    BrokenNameIs(name, j);
    BrokenNameIs(name, k);
    var x, y := BrokenName(name, j), BrokenName(name, k);
    if x == y {
      assert x[|name| + 1..] == Padded('0', j) && y[|name| + 1..] == Padded('0', k);
      PaddedInjective(j, k);
    }
  }

  /** The shape of a frame. */
  function Plane(s: Shape): Shape {
    Shape(s.n0, s.n1, 1)
  }

  /** frame is plane k of the cube. */
  ghost predicate IsPlane(cube: Image<real>, k: nat, frame: Image<real>) {
    && cube.Valid() && frame.Valid() && k < cube.shape.n2 && frame.shape == Plane(cube.shape)
    && forall i: nat, j: nat :: i < cube.shape.n0 && j < cube.shape.n1 ==> frame.At(i, j, 0) == cube.At(i, j, k)
  }

  /** Frames 0..n-1 are in the table. */
  ghost predicate HasFrames(images: map<string, Image<real>>, name: string, cube: Image<real>, n: nat) {
    forall k: nat :: k < n ==> BrokenName(name, k) in images && IsPlane(cube, k, images[BrokenName(name, k)])
  }

  /** What is found of frame k behind a prefix; a frame that is missing counts as zeros. */
  ghost predicate ShowsFrame(images: map<string, Image<real>>, prefix: string, cube: Image<real>, k: nat) {
    && cube.Valid() && k < cube.shape.n2
    && forall i: nat, j: nat :: i < cube.shape.n0 && j < cube.shape.n1 ==>
         cube.At(i, j, k) == FramePixel(images, prefix, k, i, j)
  }

  function FramePixel(images: map<string, Image<real>>, prefix: string, k: nat, i: nat, j: nat): real {
    var name := FrameName(prefix, k);
    if name in images && |images[name].pix| == images[name].shape.Count() && images[name].shape.Has(i, j, 0)
    then images[name].At(i, j, 0) else 0.0
  }

  /** A frame that would stop the assembly. */
  predicate WrongSize(images: map<string, Image<real>>, prefix: string, n0: nat, n1: nat, k: nat) {
    var name := FrameName(prefix, k);
    name in images && (images[name].shape.n0 != n0 || images[name].shape.n1 != n1)
  }

  /** Pixels of plane k before (x, y) come from the frame; all others are as before. */
  ghost predicate Placed(before: Image<real>, after: Image<real>, frame: Image<real>, k: nat, x: nat, y: nat) {
    && before.Valid() && after.Valid() && after.shape == before.shape && k < after.shape.n2
    && frame.Valid() && frame.shape.n0 == after.shape.n0 && frame.shape.n1 == after.shape.n1 && frame.shape.n2 >= 1
    && forall i: nat, j: nat, z: nat :: after.shape.Has(i, j, z) ==>
         after.At(i, j, z) == if z == k && Earlier(i, j, 0, x, y, 0) then frame.At(i, j, 0) else before.At(i, j, z)
  }

  lemma {:induction false} PlaceOne(before: Image<real>, after: Image<real>, frame: Image<real>, k: nat, x: nat, y: nat)
    requires Placed(before, after, frame, k, x, y) && after.shape.Has(x, y, k)
    ensures Flat(after.shape, x, y, k) < |after.pix|
    ensures var after' := Image(after.shape, after.pix[Flat(after.shape, x, y, k) := frame.At(x, y, 0)]);
            Placed(before, after', frame, k, x, y + 1)
  {
    var q := Flat(after.shape, x, y, k);
    FlatInside(after.shape, x, y, k);
    var after' := Image(after.shape, after.pix[q := frame.At(x, y, 0)]);
    forall i: nat, j: nat, z: nat | after.shape.Has(i, j, z)
      ensures after'.At(i, j, z) == if z == k && Earlier(i, j, 0, x, y + 1, 0) then frame.At(i, j, 0) else before.At(i, j, z)
    {
      AtUpdate(after, x, y, k, frame.At(x, y, 0), i, j, z);
    }
  }

  /** Copies a frame into plane k of a cube. */
  method PlaceFrame(frame: Image<real>, s: Shape, out: array<real>, k: nat)
    requires out.Length == s.Count() && k < s.n2
    requires frame.Valid() && frame.shape.n0 == s.n0 && frame.shape.n1 == s.n1 && frame.shape.n2 >= 1
    modifies out
    ensures Placed(old(Image(s, out[..])), Image(s, out[..]), frame, k, s.n0, 0)
  {
    ghost var before := Image(s, out[..]);
    for ii := 0 to s.n0
      invariant Placed(before, Image(s, out[..]), frame, k, ii, 0)
    {
      for jj := 0 to s.n1
        invariant Placed(before, Image(s, out[..]), frame, k, ii, jj)
      {
        FlatInside(frame.shape, ii, jj, 0);
        var q := Flat(s, ii, jj, k);
        PlaceOne(before, Image(s, out[..]), frame, k, ii, jj);
        ghost var pix := out[..];
        out[q] := frame.pix[Flat(frame.shape, ii, jj, 0)];
        assert out[..] == pix[q := frame.At(ii, jj, 0)];
      }
    }
  }

  class ImageStore {
    var images: map<string, Image<real>>

    ghost predicate Sound()
      reads this
    {
      forall name :: name in images ==> images[name].Valid() && images[name].shape.n2 >= 1
    }

    /** The frame name, patched in place. */
    method NameFrame(name: string, kk: nat) returns (framename: string)
      ensures framename == BrokenName(name, kk)
    {
      var raw := name + "_" + Padded(' ', kk);
      framename := raw;
      for i := 0 to |raw|
        invariant |framename| == |raw|
        invariant forall j :: 0 <= j < i ==> framename[j] == Zeroed(raw)[j]
        invariant forall j :: i <= j < |raw| ==> framename[j] == raw[j]
      {
        if framename[i] == ' ' {
          framename := framename[i := '0'];
        }
      }
    }

    /** Plane kk of a cube as an image of its own. */
    method TakePlane(cube: Image<real>, kk: nat) returns (frame: Image<real>)
      requires cube.Valid() && kk < cube.shape.n2
      ensures IsPlane(cube, kk, frame)
    {
      var s := Plane(cube.shape);
      var out := new real[s.Count()](_ => 0.0);
      frame := Image(s, out[..]);
      for ii := 0 to s.n0
        invariant TakenUpTo(cube, kk, Image(s, out[..]), ii, 0)
      {
        for jj := 0 to s.n1
          invariant TakenUpTo(cube, kk, Image(s, out[..]), ii, jj)
        {
          FlatInside(cube.shape, ii, jj, kk);
          var q := Flat(s, ii, jj, 0);
          TakeOne(cube, kk, Image(s, out[..]), ii, jj, q);
          ghost var pix := out[..];
          out[q] := cube.pix[Flat(cube.shape, ii, jj, kk)];
          assert out[..] == pix[q := cube.At(ii, jj, kk)];
        }
      }
      frame := Image(s, out[..]);
    }

    /** break_cube: one image for each plane.  A name that is in use is reused, and must have the size of a plane. */
    method Break(name: string)
      requires Sound() && name in images
      requires forall k: nat :: k < images[name].shape.n2 && BrokenName(name, k) in images ==>
                 images[BrokenName(name, k)].shape == Plane(images[name].shape)
      modifies this
      ensures Sound() && HasFrames(images, name, old(images[name]), old(images[name]).shape.n2)
      ensures forall other :: other in images && (forall k: nat :: k < old(images[name]).shape.n2 ==> other != BrokenName(name, k)) ==>
                other in old(images) && images[other] == old(images)[other]
      ensures forall other :: other in old(images) ==> other in images
    {
      var cube := images[name];
      for kk := 0 to cube.shape.n2
        invariant Sound() && HasFrames(images, name, cube, kk)
        invariant forall other :: other in images && (forall k: nat :: k < kk ==> other != BrokenName(name, k)) ==>
                    other in old(images) && images[other] == old(images)[other]
        invariant forall other :: other in old(images) ==> other in images
      {
        var framename := NameFrame(name, kk);
        var frame := TakePlane(cube, kk);
        ghost var before := images;
        images := images[framename := frame];
        FramesKept(before, images, name, cube, kk, frame);
      }
    }

    /** images_to_cube: nothing if the first frame is missing or a later one has another size. */
    method Assemble(prefix: string, nbframes: nat) returns (r: Option<Image<real>>)
      requires Sound() && nbframes >= 1
      ensures r.Some? <==> FrameName(prefix, 0) in images &&
                           forall k: nat :: 1 <= k < nbframes ==> !WrongSize(images, prefix, images[FrameName(prefix, 0)].shape.n0, images[FrameName(prefix, 0)].shape.n1, k)
      ensures r.Some? ==> r.value.Valid() && r.value.shape == images[FrameName(prefix, 0)].shape.(n2 := nbframes)
      ensures r.Some? ==> forall k: nat :: k < nbframes ==> ShowsFrame(images, prefix, r.value, k)
    {
      var imname := FrameName(prefix, 0);
      if imname !in images { return None; }
      var s := images[imname].shape.(n2 := nbframes);
      var out := new real[s.Count()](_ => 0.0);
      BlankPlanes(images, prefix, Image(s, out[..]));
      var ok := AddFrame(prefix, 0, s, out);
      for frame := 1 to nbframes
        invariant forall k: nat :: k < frame ==> !WrongSize(images, prefix, s.n0, s.n1, k)
        invariant Shown(images, prefix, Image(s, out[..]), frame)
      {
        ok := AddFrame(prefix, frame, s, out);
        if !ok {
          assert WrongSize(images, prefix, s.n0, s.n1, frame);
          return None;
        }
      }
      r := Some(Image(s, out[..]));
    }

    /** One frame, unless it is missing; false if it has another size. */
    method AddFrame(prefix: string, frame: nat, s: Shape, out: array<real>) returns (ok: bool)
      requires Sound() && out.Length == s.Count() && frame < s.n2 && Shown(images, prefix, Image(s, out[..]), frame)
      modifies out
      ensures ok <==> !WrongSize(images, prefix, s.n0, s.n1, frame)
      ensures ok ==> Shown(images, prefix, Image(s, out[..]), frame + 1)
    {
      var imname := FrameName(prefix, frame);
      if imname !in images {
        FrameMissing(images, prefix, Image(s, out[..]), frame);
        return true;
      }
      ok := images[imname].shape.n0 == s.n0 && images[imname].shape.n1 == s.n1;
      if ok {
        ghost var before := Image(s, out[..]);
        PlaceFrame(images[imname], s, out, frame);
        FrameShown(images, prefix, before, Image(s, out[..]), frame);
      }
    }
  }

  /** Frames 0..n-1 are in the cube, and the planes behind them are blank. */
  ghost predicate Shown(images: map<string, Image<real>>, prefix: string, cube: Image<real>, n: nat) {
    && cube.Valid()
    && (forall k: nat :: k < n && k < cube.shape.n2 ==> ShowsFrame(images, prefix, cube, k))
    && forall i: nat, j: nat, k: nat :: cube.shape.Has(i, j, k) && k >= n ==> cube.At(i, j, k) == 0.0
  }

  lemma {:induction false} BlankPlanes(images: map<string, Image<real>>, prefix: string, cube: Image<real>)
    requires cube.Valid() && forall q :: 0 <= q < |cube.pix| ==> cube.pix[q] == 0.0
    ensures Shown(images, prefix, cube, 0)
  {
    forall i: nat, j: nat, k: nat | cube.shape.Has(i, j, k) ensures cube.At(i, j, k) == 0.0 {
      FlatInside(cube.shape, i, j, k);
    }
  }

  lemma {:induction false} FrameShown(images: map<string, Image<real>>, prefix: string, before: Image<real>, after: Image<real>, k: nat)
    requires Shown(images, prefix, before, k) && FrameName(prefix, k) in images
    requires Placed(before, after, images[FrameName(prefix, k)], k, after.shape.n0, 0)
    ensures Shown(images, prefix, after, k + 1)
  {
    forall z: nat | z < k + 1 && z < after.shape.n2 ensures ShowsFrame(images, prefix, after, z) {
      if z < k { assert ShowsFrame(images, prefix, before, z); }
      forall i: nat, j: nat | i < after.shape.n0 && j < after.shape.n1
        ensures after.At(i, j, z) == FramePixel(images, prefix, z, i, j)
      {
        assert after.shape.Has(i, j, z);
      }
    }
  }

  lemma {:induction false} FrameMissing(images: map<string, Image<real>>, prefix: string, cube: Image<real>, k: nat)
    requires Shown(images, prefix, cube, k) && FrameName(prefix, k) !in images && k < cube.shape.n2
    ensures Shown(images, prefix, cube, k + 1)
  {
    forall i: nat, j: nat | i < cube.shape.n0 && j < cube.shape.n1 ensures cube.At(i, j, k) == FramePixel(images, prefix, k, i, j) {
      assert cube.shape.Has(i, j, k);
    }
  }

  /** Pixels before (x, y) of the plane are taken over. */
  ghost predicate TakenUpTo(cube: Image<real>, k: nat, frame: Image<real>, x: nat, y: nat) {
    && cube.Valid() && frame.Valid() && k < cube.shape.n2 && frame.shape == Plane(cube.shape)
    && forall i: nat, j: nat :: i < cube.shape.n0 && j < cube.shape.n1 && Earlier(i, j, 0, x, y, 0) ==> frame.At(i, j, 0) == cube.At(i, j, k)
  }

  lemma {:induction false} TakeOne(cube: Image<real>, k: nat, frame: Image<real>, x: nat, y: nat, q: nat)
    requires TakenUpTo(cube, k, frame, x, y) && x < cube.shape.n0 && y < cube.shape.n1 && q == Flat(frame.shape, x, y, 0)
    ensures q < |frame.pix| && TakenUpTo(cube, k, Image(frame.shape, frame.pix[q := cube.At(x, y, k)]), x, y + 1)
  {
    FlatInside(frame.shape, x, y, 0);
    var frame' := Image(frame.shape, frame.pix[q := cube.At(x, y, k)]);
    forall i: nat, j: nat | i < cube.shape.n0 && j < cube.shape.n1 && Earlier(i, j, 0, x, y + 1, 0)
      ensures frame'.At(i, j, 0) == cube.At(i, j, k)
    {
      AtUpdate(frame, x, y, 0, cube.At(x, y, k), i, j, 0);
    }
  }

  lemma {:induction false} FramesKept(before: map<string, Image<real>>, after: map<string, Image<real>>, name: string, cube: Image<real>,
                                      n: nat, frame: Image<real>)
    requires HasFrames(before, name, cube, n) && IsPlane(cube, n, frame) && after == before[BrokenName(name, n) := frame]
    ensures HasFrames(after, name, cube, n + 1)
  {
    forall k: nat | k < n + 1 ensures BrokenName(name, k) in after && IsPlane(cube, k, after[BrokenName(name, k)]) {
      BrokenNameInjective(name, k, n);
    }
  }

  /** The planes of an assembled cube: the frame of the number, in five digits behind the prefix, or zeros. */
  lemma {:induction false} AssembledPixel(images: map<string, Image<real>>, prefix: string, cube: Image<real>, k: nat, i: nat, j: nat)
    requires ShowsFrame(images, prefix, cube, k) && i < cube.shape.n0 && j < cube.shape.n1
    requires prefix + Padded('0', k) in images ==>
               var frame := images[prefix + Padded('0', k)]; frame.Valid() && frame.shape.Has(i, j, 0)
    ensures cube.At(i, j, k) == if prefix + Padded('0', k) in images then images[prefix + Padded('0', k)].At(i, j, 0) else 0.0
  {
    assert cube.At(i, j, k) == FramePixel(images, prefix, k, i, j);
  }

  /** Main result: a cube broken into frames and assembled with the prefix `name_` is the cube, for every
      name without a blank and every size with at least one plane. */
  lemma {:induction false} AssembledIsBroken(images: map<string, Image<real>>, name: string, cube: Image<real>, cube': Image<real>)
    requires cube.Valid() && HasFrames(images, name, cube, cube.shape.n2) && !HasBlank(name) && cube.shape.n2 >= 1
    requires cube'.Valid() && cube'.shape == images[BrokenName(name, 0)].shape.(n2 := cube.shape.n2)
    requires forall k: nat :: k < cube.shape.n2 ==> ShowsFrame(images, name + "_", cube', k)
    ensures cube' == cube
  {
    assert IsPlane(cube, 0, images[BrokenName(name, 0)]);
    forall i: nat, j: nat, k: nat | cube.shape.Has(i, j, k) ensures cube'.At(i, j, k) == cube.At(i, j, k) {
      NamesAgree(name, k);
      assert ShowsFrame(images, name + "_", cube', k);
      assert IsPlane(cube, k, images[BrokenName(name, k)]);
    }
    SamePixels(cube', cube);
  }

  lemma {:induction false} FramesFit(images: map<string, Image<real>>, name: string, cube: Image<real>)
    requires cube.Valid() && HasFrames(images, name, cube, cube.shape.n2) && !HasBlank(name) && cube.shape.n2 >= 1
    ensures FrameName(name + "_", 0) in images && FrameName(name + "_", 0) == BrokenName(name, 0)
    ensures images[BrokenName(name, 0)].shape == Plane(cube.shape)
    ensures forall k: nat :: 1 <= k < cube.shape.n2 ==> !WrongSize(images, name + "_", cube.shape.n0, cube.shape.n1, k)
  {
    NamesAgree(name, 0);
    assert IsPlane(cube, 0, images[BrokenName(name, 0)]);
    forall k: nat | 1 <= k < cube.shape.n2 ensures !WrongSize(images, name + "_", cube.shape.n0, cube.shape.n1, k) {
      NamesAgree(name, k);
      assert IsPlane(cube, k, images[BrokenName(name, k)]);
    }
  }

  /** The round trip through the image table. */
  method BreakAndAssemble(store: ImageStore, name: string) returns (r: Option<Image<real>>)
    requires store.Sound() && name in store.images && !HasBlank(name)
    requires forall k: nat :: k < store.images[name].shape.n2 && BrokenName(name, k) in store.images ==>
               store.images[BrokenName(name, k)].shape == Plane(store.images[name].shape)
    modifies store
    ensures r == Some(old(store.images[name]))
  {
    var cube := store.images[name];
    store.Break(name);
    FramesFit(store.images, name, cube);
    r := store.Assemble(name + "_", cube.shape.n2);
    if r.Some? { AssembledIsBroken(store.images, name, cube, r.value); }
  }
}
