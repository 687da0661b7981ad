/** A byte stream that breaks off inside a record. */
module TcpTorn {
  import opened Bytes
  import opened Index
  import opened TcpStream
  import opened TcpReplica

  /** How much of a stretch of n bytes lies among the first t - from bytes of it. */
  function Arrived(t: int, from: int, n: nat): nat {
    if t <= from then 0 else if t >= from + n then n else t - from
  }

  /** The first t bytes of x, then y from there on. */
  function Over(x: seq<byte>, y: seq<byte>, t: nat): seq<byte>
    requires t <= |x| == |y|
  {
    x[..t] + y[t..]
  }

  /** A stretch of what lies over something is that stretch over that stretch. */
  lemma {:induction false} OverSlice(x: seq<byte>, y: seq<byte>, t: nat, from: nat, n: nat)
    requires t <= |x| == |y| && from + n <= |x|
    ensures Over(x, y, t)[from..from + n] == Over(x[from..from + n], y[from..from + n], Arrived(t, from, n))
  {
  }

  /** The number whose j low bytes are those of b and whose other bytes are those of a. */
  function Mixed(a: nat, b: nat, j: nat): nat {
    if j == 0 then a else b % 256 + 256 * Mixed(a / 256, b / 256, j - 1)
  }

  lemma {:induction false} MixedBound(a: nat, b: nat, j: nat)
    ensures Mixed(a, b, j) <= a + b
  {
    if j > 0 { MixedBound(a / 256, b / 256, j - 1); }
  }

  lemma {:induction false} MixedWhole(a: nat, b: nat, j: nat)
    requires b < Pow256(j) && a < Pow256(j)
    ensures Mixed(a, b, j) == b
  {
    if j > 0 { MixedWhole(a / 256, b / 256, j - 1); }
  }

  lemma {:induction false} DecodeMixed(a: nat, b: nat, j: nat, n: nat)
    requires j <= n && a < Pow256(n) && b < Pow256(n)
    ensures Decode(Over(Encode(b, n), Encode(a, n), j)) == Mixed(a, b, j)
  {
    if j == 0 {
      assert Over(Encode(b, n), Encode(a, n), 0) == Encode(a, n);
      DecodeEncode(a, n);
    } else {
      var xs := EncodeHead(b, n);
      var ys := EncodeHead(a, n);
      OverHead(ToChar(b % 256), xs, ToChar(a % 256), ys, j);
      DecodeMixed(a / 256, b / 256, j - 1, n - 1);
      DecodeHead(ToChar(b % 256), Over(xs, ys, j - 1));
    }
  }

  lemma {:induction false} EncodeHead(x: nat, n: nat) returns (xs: seq<byte>)
    requires n > 0 && x < Pow256(n)
    ensures xs == Encode(x / 256, n - 1) && Encode(x, n) == [ToChar(x % 256)] + xs && |xs| == n - 1
    ensures FromChar(ToChar(x % 256)) == x % 256 && x / 256 < Pow256(n - 1)
  {
    xs := Encode(x / 256, n - 1);
  }

  lemma {:induction false} OverHead(x: byte, xs: seq<byte>, y: byte, ys: seq<byte>, j: nat)
    requires 0 < j <= 1 + |xs| && |xs| == |ys|
    ensures Over([x] + xs, [y] + ys, j) == [x] + Over(xs, ys, j - 1)
  {
  }

  lemma {:induction false} DecodeHead(x: byte, xs: seq<byte>)
    ensures Decode([x] + xs) == FromChar(x) + 256 * Decode(xs)
  {
    assert ([x] + xs)[1..] == xs;
  }

  // ----- the transfer buffer when t bytes of record g lie over record f

  /** Bytes of the pixels, and of the slice number, that have arrived. */
  function PixelsIn(ly: Layout, t: nat): nat {
    Arrived(t, 0, ly.framesize)
  }

  function SliceBytesIn(ly: Layout, t: nat): nat {
    Arrived(t, ly.framesize + 8, 8)
  }

  /** The pixels and the slice the receiver sees. */
  function SeenPixels(ly: Layout, f: Frame, g: Frame, t: nat): seq<byte>
    requires |f.pixels| == |g.pixels| == ly.framesize
  {
    Over(g.pixels, f.pixels, PixelsIn(ly, t))
  }

  function SeenSlice(ly: Layout, f: Frame, g: Frame, t: nat): nat {
    if ly.slices > 1 then Mixed(f.slice, g.slice, SliceBytesIn(ly, t)) else 0
  }

  lemma {:induction false} RecordParts(ly: Layout, f: Frame)
    requires Fits(ly, f)
    ensures |Record(f)| == ly.RecordSize() && Record(f)[0..ly.framesize] == f.pixels
    ensures Record(f)[ly.framesize + 8..ly.framesize + 8 + 8] == Encode(f.slice, 8)
  {
  }

  lemma {:induction false} PixelsInBuffer(ly: Layout, f: Frame, g: Frame, t: nat)
    requires Fits(ly, f) && Fits(ly, g) && t <= ly.RecordSize()
    ensures |Record(f)| == |Record(g)| == ly.RecordSize()
    ensures Over(Record(g), Record(f), t)[..ly.framesize] == SeenPixels(ly, f, g, t)
  {
    RecordParts(ly, f);
    RecordParts(ly, g);
    OverSlice(Record(g), Record(f), t, 0, ly.framesize);
  }

  lemma {:induction false} SliceInBuffer(ly: Layout, f: Frame, g: Frame, t: nat)
    requires Fits(ly, f) && Fits(ly, g) && t <= ly.RecordSize()
    ensures |Record(f)| == |Record(g)| == ly.RecordSize()
    ensures var at, j := ly.framesize + 8, SliceBytesIn(ly, t);
            Over(Record(g), Record(f), t)[at..at + 8] == Over(Encode(g.slice, 8), Encode(f.slice, 8), j)
  {
    RecordParts(ly, f);
    RecordParts(ly, g);
    OverSlice(Record(g), Record(f), t, ly.framesize + 8, 8);
  }

  lemma {:induction false} SeenInBuffer(ly: Layout, f: Frame, g: Frame, t: nat)
    requires ly.Valid() && Fits(ly, f) && Fits(ly, g) && t <= ly.RecordSize()
    ensures |Record(f)| == |Record(g)| == ly.RecordSize()
    ensures var buff := Over(Record(g), Record(f), t);
            buff[..ly.framesize] == SeenPixels(ly, f, g, t) && Target(ly, SliceIn(ly, buff)) == SeenSlice(ly, f, g, t)
  {
    PixelsInBuffer(ly, f, g, t);
    SliceInBuffer(ly, f, g, t);
    SmallFits(f.slice);
    SmallFits(g.slice);
    DecodeMixed(f.slice, g.slice, SliceBytesIn(ly, t), 8);
    MixedBound(f.slice, g.slice, SliceBytesIn(ly, t));
  }

  /** What t bytes of record g do to the replica after record f: one slice shows the pixels seen, or, when there is
      no such slice, they are written outside the image. */
  lemma {:induction false} TornRecord(ly: Layout, r: Replica, f: Frame, g: Frame, t: nat, x: nat)
    requires ly.Valid() && Fits(ly, f) && Fits(ly, g) && t <= ly.RecordSize() && x < ly.slices
    requires r.buff == Record(f) && |r.image| == ly.slices * ly.framesize
    ensures |Record(f)| == |Record(g)| == ly.RecordSize()
    ensures Slice(Apply(ly, r, Record(g)[..t]).image, ly.framesize, x) ==
            if x == SeenSlice(ly, f, g, t) then SeenPixels(ly, f, g, t) else Slice(r.image, ly.framesize, x)
    ensures Apply(ly, r, Record(g)[..t]).outside == (r.outside || SeenSlice(ly, f, g, t) >= ly.slices)
  {
    SeenInBuffer(ly, f, g, t);
    var s, pixels := SeenSlice(ly, f, g, t), SeenPixels(ly, f, g, t);
    assert Record(g)[..t] + r.buff[t..] == Over(Record(g), Record(f), t);
    if s < ly.slices { PutSlice(ly, r.image, s, pixels, x); }
  }

  lemma {:induction false} KeywordsInBuffer(ly: Layout, f: Frame, g: Frame, t: nat)
    requires Fits(ly, f) && Fits(ly, g) && t <= ly.RecordSize()
    ensures |Record(f)| == |Record(g)| == ly.RecordSize()
    ensures var n := Arrived(t, ly.framesize + 16, ly.kwsize);
            Over(Record(g), Record(f), t)[ly.framesize + 16..] == g.kw[..n] + f.kw[n..]
  {
    RecordParts(ly, f);
    RecordParts(ly, g);
    var at := ly.framesize + 16;
    OverSlice(Record(g), Record(f), t, at, ly.kwsize);
    assert Record(f)[at..at + ly.kwsize] == f.kw && Record(g)[at..at + ly.kwsize] == g.kw;
    assert Over(Record(g), Record(f), t)[at..] == Over(Record(g), Record(f), t)[at..at + ly.kwsize];
  }

  /** The counters and the keywords after t bytes of record g. */
  lemma {:induction false} TornRest(ly: Layout, r: Replica, f: Frame, g: Frame, t: nat)
    requires ly.Valid() && Fits(ly, f) && Fits(ly, g) && t <= ly.RecordSize() && r.buff == Record(f)
    ensures |Record(f)| == |Record(g)| == ly.RecordSize()
    ensures var r', n := Apply(ly, r, Record(g)[..t]), Arrived(t, ly.framesize + 16, ly.kwsize);
            && r'.cnt0 == r.cnt0 + 1 && r'.kw == g.kw[..n] + f.kw[n..]
            && r'.cnt1 == Mixed(f.slice, g.slice, SliceBytesIn(ly, t))
  {
    KeywordsInBuffer(ly, f, g, t);
    SliceInBuffer(ly, f, g, t);
    assert Record(g)[..t] + r.buff[t..] == Over(Record(g), Record(f), t);
    SmallFits(f.slice);
    SmallFits(g.slice);
    DecodeMixed(f.slice, g.slice, SliceBytesIn(ly, t), 8);
    MixedBound(f.slice, g.slice, SliceBytesIn(ly, t));
  }

  // ----- a stream that ends t bytes into a record

  /** Receiving k whole records, and then a rest, comes down to receiving the rest. */
  lemma {:induction false} PlayedWithRest(ly: Layout, r: Replica, whole: seq<byte>, rest: seq<byte>, pos: nat, k: nat) returns (r1: Replica)
    requires |r.buff| == ly.RecordSize() && |whole| == pos + Rows(k, ly.RecordSize())
    ensures r1 == Played(ly, r, whole, pos) && |r1.buff| == ly.RecordSize()
    ensures Played(ly, r, whole + rest, pos) == Played(ly, r1, whole + rest, |whole|)
    decreases k
  {
    if k == 0 {
      r1 := r;
    } else {
      var next := pos + ly.RecordSize();
      var r0 := PlayedBoth(ly, r, whole, rest, pos, next);
      r1 := PlayedWithRest(ly, r0, whole, rest, next, k - 1);
    }
  }

  /** The next record, with and without the rest behind. */
  lemma {:induction false} PlayedBoth(ly: Layout, r: Replica, whole: seq<byte>, rest: seq<byte>, pos: nat, next: nat) returns (r0: Replica)
    requires |r.buff| == ly.RecordSize() && next == pos + ly.RecordSize() <= |whole|
    ensures |r0.buff| == ly.RecordSize() && Played(ly, r, whole, pos) == Played(ly, r0, whole, next)
    ensures Played(ly, r, whole + rest, pos) == Played(ly, r0, whole + rest, next)
  {
    assert (whole + rest)[pos..next] == whole[pos..next];
    r0 := Apply(ly, r, whole[pos..next]);
    PlayedStep(ly, r, whole, pos, next);
    PlayedStep(ly, r, whole + rest, pos, next);
  }

  lemma {:induction false} RestPlayed(ly: Layout, r: Replica, before: seq<byte>, rest: seq<byte>)
    requires |r.buff| == ly.RecordSize() && |rest| < ly.RecordSize()
    ensures Played(ly, r, before + rest, |before|) == if |rest| == 0 then r else Apply(ly, r, rest)
  {
    var wire := before + rest;
    if |rest| > 0 {
      PlayedStep(ly, r, wire, |before|, |wire|);
      assert wire[|before|..|wire|] == rest;
    }
  }

  /** Slice x shows the last snapshot sent for it in a whole record, or the one in the broken record g. */
  predicate ShowsLast(ly: Layout, image0: seq<byte>, frames: seq<Frame>, q: nat, g: Frame, image: seq<byte>, x: nat)
    requires q <= |frames|
  {
    var shown := Slice(image, ly.framesize, x);
    shown == Shown(ly, image0, frames, q, x) || (x == g.slice && shown == g.pixels)
  }

  /** When a break t bytes into record g, after record f, does no harm: nothing of g has arrived; or the slice
      number is still that of f, and either the pixels that have arrived are those of f, or g is for the same slice
      and the other pixels are those of g; or the slice number is that of g, or of a slice that shows the pixels of g
      already. */
  predicate Harmless(ly: Layout, image0: seq<byte>, frames: seq<Frame>, q: nat, g: Frame, t: nat)
    requires q < |frames| && |frames[|frames| - 1].pixels| == |g.pixels| == ly.framesize
  {
    var f, m := frames[|frames| - 1], PixelsIn(ly, t);
    if t <= ly.framesize + 8 then
      g.pixels[..m] == f.pixels[..m] || (g.slice == f.slice && g.pixels[m..] == f.pixels[m..])
    else
      var s := SeenSlice(ly, f, g, t);
      s < ly.slices && (s == g.slice || g.pixels == Shown(ly, image0, frames, q, s))
  }

  lemma {:induction false} LastIsShown(ly: Layout, image0: seq<byte>, frames: seq<Frame>, q: nat)
    requires AllFit(ly, frames) && q < |frames|
    ensures var f := frames[|frames| - 1]; Shown(ly, image0, frames, q, f.slice) == f.pixels
  {
    LastOfIsLast(frames, q, frames[|frames| - 1].slice);
  }

  /** The pixels seen are those of f, or those of g, exactly when the parts that are mixed agree. */
  lemma {:induction false} SeenIs(ly: Layout, f: Frame, g: Frame, t: nat)
    requires |f.pixels| == |g.pixels| == ly.framesize
    ensures var m, seen := PixelsIn(ly, t), SeenPixels(ly, f, g, t);
            && (seen == f.pixels <==> g.pixels[..m] == f.pixels[..m])
            && (seen == g.pixels <==> g.pixels[m..] == f.pixels[m..])
  {
    var m, seen := PixelsIn(ly, t), SeenPixels(ly, f, g, t);
    assert seen[..m] == g.pixels[..m] && seen[m..] == f.pixels[m..];
    assert f.pixels == f.pixels[..m] + f.pixels[m..] && g.pixels == g.pixels[..m] + g.pixels[m..];
  }

  /** With the pixels in place, only the slice that shows them can be wrong. */
  lemma {:induction false} HarmlessSeen(ly: Layout, image0: seq<byte>, frames: seq<Frame>, q: nat, g: Frame, t: nat)
    requires ly.Valid() && AllFit(ly, frames) && Fits(ly, g) && q < |frames| && t < ly.RecordSize()
    ensures var f := frames[|frames| - 1];
            var s, seen := SeenSlice(ly, f, g, t), SeenPixels(ly, f, g, t);
            Harmless(ly, image0, frames, q, g, t) <==>
            s < ly.slices && (seen == Shown(ly, image0, frames, q, s) || (s == g.slice && seen == g.pixels))
  {
    var f := frames[|frames| - 1];
    SeenIs(ly, f, g, t);
    if t <= ly.framesize + 8 { LastIsShown(ly, image0, frames, q); }
  }

  lemma {:induction false} RowsLeft(q: nat, m: nat, n: nat)
    requires q <= m
    ensures m * n == q * n + (m - q) * n && q * n <= m * n
  {
    if q < m {
      RowsApart(q, m, n);
      RowsLeft(q, m - 1, n);
      Successor(m - 1, n);
      Successor(m - 1 - q, n);
    }
  }

  /** Main result: a stream of whole records that breaks off t bytes into one more, record g.  Every slice shows the
      last snapshot sent for it and nothing is written outside the image, exactly when the break is harmless. */
  lemma {:induction false} TornStream(ly: Layout, r: Replica, frames: seq<Frame>, g: Frame, t: nat, q: nat, pos: nat)
    requires ly.Valid() && AllFit(ly, frames) && Fits(ly, g) && q < |frames| && t < ly.RecordSize()
    requires |r.buff| == ly.RecordSize() && |r.image| == ly.slices * ly.framesize && pos == q * ly.RecordSize() && !r.outside
    ensures |Record(g)| == ly.RecordSize() && pos <= |Records(frames)|
    ensures var r' := Played(ly, r, Records(frames) + Record(g)[..t], pos);
            !r'.outside && (forall x: nat :: x < ly.slices ==> ShowsLast(ly, r.image, frames, q, g, r'.image, x)) <==>
            Harmless(ly, r.image, frames, q, g, t)
  {
    var f := frames[|frames| - 1];
    RecordParts(ly, g);
    RecordsLength(ly, frames);
    RowsLeft(q, |frames|, ly.RecordSize());
    RowsProduct(|frames| - q, ly.RecordSize());
    var r1 := PlayedWithRest(ly, r, Records(frames), Record(g)[..t], pos, |frames| - q);
    RestPlayed(ly, r1, Records(frames), Record(g)[..t]);
    ReplicaShowsLastSent(ly, r, frames, q, pos, 0);
    var r2 := Played(ly, r, Records(frames) + Record(g)[..t], pos);
    var image := r2.image;
    var s, seen := SeenSlice(ly, f, g, t), SeenPixels(ly, f, g, t);
    forall x: nat | x < ly.slices
      ensures Slice(image, ly.framesize, x) == if x == s && t > 0 then seen else Shown(ly, r.image, frames, q, x)
    {
      ReplicaShowsLastSent(ly, r, frames, q, pos, x);
      TornRecord(ly, r1, f, g, t, x);
    }
    TornRecord(ly, r1, f, g, t, 0);
    assert r2.outside == (t > 0 && s >= ly.slices);
    HarmlessSeen(ly, r.image, frames, q, g, t);
    if t == 0 {
      SeenIs(ly, f, g, 0);
    } else if s < ly.slices {
      assert ShowsLast(ly, r.image, frames, q, g, image, s) <==> Harmless(ly, r.image, frames, q, g, t);
    }
  }

  /** A break one byte into the number of slice 255, after a record for slice 256: the number read is 511, and with 300
      slices the pixels are written outside the image. */
  lemma {:induction false} BreakWritesOutside(ly: Layout, image0: seq<byte>, frames: seq<Frame>, q: nat, g: Frame)
    requires AllFit(ly, frames) && Fits(ly, g) && q < |frames|
    requires ly.slices == 300 && frames[|frames| - 1].slice == 256 && g.slice == 255
    ensures SeenSlice(ly, frames[|frames| - 1], g, ly.framesize + 9) == 511
    ensures !Harmless(ly, image0, frames, q, g, ly.framesize + 9)
  {
    assert Fits(ly, frames[|frames| - 1]);
    assert Mixed(256 / 256, 255 / 256, 0) == 1;
    assert Mixed(256, 255, 1) == 255 % 256 + 256 * Mixed(256 / 256, 255 / 256, 0);
  }

  /** Once the slice number has arrived, or four bytes of it, a break does no harm. */
  lemma {:induction false} LateBreakHarmless(ly: Layout, image0: seq<byte>, frames: seq<Frame>, q: nat, g: Frame, t: nat)
    requires ly.Valid() && AllFit(ly, frames) && Fits(ly, g) && q < |frames| && ly.framesize + 12 <= t < ly.RecordSize()
    ensures Harmless(ly, image0, frames, q, g, t)
  {
    var f, j := frames[|frames| - 1], SliceBytesIn(ly, t);
    assert Fits(ly, f);
    FourBytesEnough(f.slice, j);
    FourBytesEnough(g.slice, j);
    MixedWhole(f.slice, g.slice, j);
  }

  lemma {:induction false} FourBytesEnough(x: nat, j: nat)
    requires x < 0x8000_0000 && j >= 4
    ensures x < Pow256(j)
  {
    if j == 4 {
      assert Pow256(2) == 65536;
      assert Pow256(4) == 256 * (256 * Pow256(2));
    } else {
      FourBytesEnough(x, j - 1);
    }
  }
}
