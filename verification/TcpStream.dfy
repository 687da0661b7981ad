/** One image replicated over a byte stream: the sender picks a slice and sends a record for it, the
    receiver cuts the stream into records and writes each one into its slice of the replica. */
module TcpStream {
  import opened Bytes
  import opened Index

  /** Sizes in bytes of a slice and of the keywords, and the number of slices. */
  datatype Layout = Layout(framesize: nat, slices: nat, kwsize: nat) {
    ghost predicate Valid() {
      slices >= 1
    }

    function RecordSize(): nat {
      framesize + 16 + kwsize
    }
  }

  /** What a record says. */
  datatype Frame = Frame(pixels: seq<byte>, cnt0: nat, slice: nat, kw: seq<byte>)

  ghost predicate Fits(ly: Layout, f: Frame) {
    |f.pixels| == ly.framesize && |f.kw| == ly.kwsize && f.slice < ly.slices && f.slice < 0x8000_0000
  }

  function Record(f: Frame): seq<byte> {
    f.pixels + Encode(f.cnt0, 8) + Encode(f.slice, 8) + f.kw
  }

  function Records(frames: seq<Frame>): seq<byte> {
    if |frames| == 0 then [] else Records(frames[..|frames| - 1]) + Record(frames[|frames| - 1])
  }

  lemma {:induction false} RecordIs(f: Frame, metadata: seq<byte>)
    requires metadata == Encode(f.cnt0, 8) + Encode(f.slice, 8)
    ensures Record(f) == f.pixels + metadata + f.kw
  {
  }

  ghost predicate AllFit(ly: Layout, frames: seq<Frame>) {
    forall i :: 0 <= i < |frames| ==> Fits(ly, frames[i])
  }

  lemma {:induction false} FitMore(ly: Layout, frames: seq<Frame>, f: Frame)
    requires AllFit(ly, frames) && Fits(ly, f)
    ensures AllFit(ly, frames + [f])
  {
  }

  lemma {:induction false} RecordsMore(frames: seq<Frame>, f: Frame)
    ensures Records(frames + [f]) == Records(frames) + Record(f)
  {
    assert (frames + [f])[..|frames|] == frames;
  }

  // ----- the choice of the slice

  /** The value a counter has after being stored in an int. */
  function ToInt(x: int): int {
    (x + 0x8000_0000) % 0x1_0000_0000 - 0x8000_0000
  }

  /** The slice sent when slice `wanted` was written last and `oldslice` was sent last. */
  function SliceFor(wanted: int, oldslice: int, slices: int): int {
    if slices > 1 && oldslice == slices - 1 then 0
    else if wanted > oldslice + 1 then (if oldslice + 1 > slices - 1 then 0 else oldslice + 1)
    else if wanted > slices - 1 then 0
    else wanted
  }

  method ChooseSlice(cnt1: nat, oldslice: int, slices: int) returns (slice: int)
    ensures slice == SliceFor(ToInt(cnt1), oldslice, slices)
  {
    slice := ToInt(cnt1);
    if slice > oldslice + 1 {
      slice := oldslice + 1;
    }
    if slices > 1 && oldslice == slices - 1 {
      slice := 0;
    }
    if slice > slices - 1 {
      slice := 0;
    }
  }

  /** The slice sent exists, unless the counter is negative as an int and no wrap to 0 is due. */
  lemma {:induction false} SliceInRange(wanted: int, oldslice: int, slices: int)
    requires 0 <= oldslice < slices
    ensures 0 <= SliceFor(wanted, oldslice, slices) < slices <==> wanted >= 0 || (slices > 1 && oldslice == slices - 1)
    ensures wanted < 0 && !(slices > 1 && oldslice == slices - 1) ==> SliceFor(wanted, oldslice, slices) == wanted
  {
  }

  /** A counter stored in an int keeps its value modulo 2 to the 32. */
  lemma {:induction false} IntOf(x: int)
    ensures -0x8000_0000 <= ToInt(x) < 0x8000_0000 && exists q: int :: x - ToInt(x) == q * 0x1_0000_0000
    ensures -0x8000_0000 <= x < 0x8000_0000 ==> ToInt(x) == x
  {
    var q := (x + 0x8000_0000) / 0x1_0000_0000;
    assert x - ToInt(x) == q * 0x1_0000_0000;
  }

  /** Slice cnt1, which was written last, is the one sent if and only if it is not more than one ahead of the slice sent before;
      after the last of several slices, if and only if it is slice 0. */
  lemma {:induction false} SendsWrittenExactly(cnt1: nat, oldslice: int, slices: int)
    requires 0 <= oldslice < slices && cnt1 < slices && cnt1 < 0x8000_0000
    ensures SliceFor(ToInt(cnt1), oldslice, slices) == cnt1 <==>
            if slices > 1 && oldslice == slices - 1 then cnt1 == 0 else cnt1 <= oldslice + 1
  {
    IntOf(cnt1);
  }

  /** A writer that goes on by one slice between two sends is followed slice by slice. */
  ghost predicate OneOn(wanted: seq<int>, start: int, slices: nat, j: nat)
    requires j < |wanted|
  {
    var before := if j == 0 then start else wanted[j - 1];
    wanted[j] == if before == slices - 1 then 0 else before + 1
  }

  lemma {:induction false} FollowsWriter(wanted: seq<int>, start: int, slices: nat, i: nat)
    requires 0 <= start < slices && i < |wanted|
    requires forall j :: 0 <= j < |wanted| ==> OneOn(wanted, start, slices, j)
    ensures 0 <= wanted[i] < slices && Chased(wanted, start, slices, i + 1) == wanted[i]
  {
    if i > 0 { FollowsWriter(wanted, start, slices, i - 1); }
    assert OneOn(wanted, start, slices, i);
    assert Chased(wanted, start, slices, i + 1) == SliceFor(wanted[i], Chased(wanted, start, slices, i), slices);
  }

  /** The slice sent fits an int. */
  lemma {:induction false} SliceFitsInt(cnt1: nat, oldslice: int, slices: int)
    ensures SliceFor(ToInt(cnt1), oldslice, slices) < 0x8000_0000
  {
  }

  /** The slice sent by the i-th send. */
  ghost function Chased(wanted: seq<int>, start: int, slices: int, i: nat): int
    requires i <= |wanted|
  {
    if i == 0 then start else SliceFor(wanted[i - 1], Chased(wanted, start, slices, i - 1), slices)
  }

  /** Slice number x, counted round the slices. */
  ghost function Round(x: nat, slices: nat): nat
    requires slices > 0
  {
    if x < slices then x else Round(x - slices, slices)
  }

  lemma {:induction false} RoundNext(x: nat, slices: nat)
    requires slices > 0
    ensures Round(x, slices) < slices
    ensures Round(x + 1, slices) == if Round(x, slices) == slices - 1 then 0 else Round(x, slices) + 1
  {
    if x >= slices {
      RoundNext(x - slices, slices);
    } else {
      assert Round(x, slices) == x;
      assert x + 1 == slices ==> Round(x + 1, slices) == Round(0, slices) == 0;
    }
  }

  /** Send number j finds the writer ahead of the slice sent last. */
  ghost predicate Behind(wanted: seq<int>, start: int, slices: int, j: nat)
    requires j < |wanted|
  {
    wanted[j] > Chased(wanted, start, slices, j)
  }

  /** A sender that always finds the writer ahead of it skips no slice: it goes round all of them in turn. */
  lemma {:induction false} LaggingSenderSkipsNothing(wanted: seq<int>, start: int, slices: int, i: nat)
    requires 0 <= start < slices && i <= |wanted|
    requires forall j :: 0 <= j < |wanted| ==> Behind(wanted, start, slices, j)
    ensures Chased(wanted, start, slices, i) == Round(start + i, slices)
  {
    if i > 0 {
      LaggingSenderSkipsNothing(wanted, start, slices, i - 1);
      RoundNext(start + i - 1, slices);
      assert Behind(wanted, start, slices, i - 1);
    }
  }

  // ----- the sender

  class Sender {
    const ly: Layout
    const image: array<byte>
    const kw: array<byte>
    const buff: array<byte>
    var oldslice: nat
    var wire: seq<byte>
    ghost var sent: seq<Frame>

    ghost predicate Sized() {
      && ly.Valid() && image.Length == ly.slices * ly.framesize && kw.Length == ly.kwsize && buff.Length == ly.RecordSize()
      && image != buff && kw != buff
    }

    ghost predicate Valid()
      reads this
    {
      Sized() && oldslice < ly.slices && wire == Records(sent) && AllFit(ly, sent)
    }

    constructor (layout: Layout)
      requires layout.Valid()
      ensures Valid() && ly == layout && wire == [] && sent == [] && oldslice == 0
      ensures fresh(image) && fresh(kw) && fresh(buff)
    {
      ly := layout;
      image := new byte[layout.slices * layout.framesize];
      kw := new byte[layout.kwsize];
      buff := new byte[layout.RecordSize()];
      oldslice, wire, sent := 0, [], [];
    }

    /** Copies n bytes into the transfer buffer, behind what is already there. */
    method CopyIn(src: array<byte>, from: nat, to: nat, n: nat)
      requires src != buff && from + n <= src.Length && to + n <= buff.Length
      modifies buff
      ensures buff[..to + n] == old(buff[..to]) + src[from..from + n]
    {
      ghost var before := buff[..];
      for i := 0 to n
        invariant forall j :: to <= j < to + i ==> buff[j] == src[j - to + from]
        invariant forall j :: 0 <= j < to ==> buff[j] == before[j]
      {
        buff[to + i] := src[from + i];
      }
    }

    /** The metadata as it lies in memory. */
    method Metadata(cnt0: nat, slice: nat) returns (md: array<byte>)
      ensures fresh(md) && md.Length == 16 && md[..] == Encode(cnt0, 8) + Encode(slice, 8)
    {
      md := new byte[16];
      var bytes := Encode(cnt0, 8) + Encode(slice, 8);
      for i := 0 to 16
        invariant md[..i] == bytes[..i]
      {
        md[i] := bytes[i];
      }
    }

    /** Fills the transfer buffer with the record of a slice. */
    method Fill(cnt0: nat, slice: nat) returns (ghost f: Frame)
      requires Sized() && slice < ly.slices
      modifies buff
      ensures f == Frame(Slice(image[..], ly.framesize, slice), cnt0, slice, kw[..])
      ensures buff[..] == Record(f) && |f.pixels| == ly.framesize
    {
      SliceBounds(ly.framesize, slice, ly.slices);
      ghost var pixels := Slice(image[..], ly.framesize, slice);
      CopyIn(image, slice * ly.framesize, 0, ly.framesize);
      assert pixels == image[slice * ly.framesize..slice * ly.framesize + ly.framesize];
      assert buff[..ly.framesize] == pixels;
      var md := Metadata(cnt0, slice);
      CopyIn(md, 0, ly.framesize, 16);
      assert buff[..ly.framesize + 16] == pixels + md[..];
      CopyIn(kw, 0, ly.framesize + 16, ly.kwsize);
      assert buff[..ly.framesize + 16 + ly.kwsize] == pixels + md[..] + kw[..];
      f := Frame(pixels, cnt0, slice, kw[..]);
      RecordIs(f, md[..]);
      assert buff[..ly.RecordSize()] == buff[..];
    }

    /** Sends a record for the slice that is due. */
    method Transmit(cnt0: nat, cnt1: nat) returns (ghost f: Frame)
      requires Valid() && (ToInt(cnt1) >= 0 || (ly.slices > 1 && oldslice == ly.slices - 1))
      modifies this`oldslice, this`wire, this`sent, buff
      ensures Valid() && sent == old(sent) + [f]
      ensures f.slice == oldslice == SliceFor(ToInt(cnt1), old(oldslice), ly.slices) && f.slice < ly.slices
      ensures f == Frame(Slice(image[..], ly.framesize, f.slice), cnt0, f.slice, kw[..])
      // the pixels of that slice, and which slice it is
      ensures 0 <= f.slice * ly.framesize && f.slice * ly.framesize + ly.framesize <= image.Length
      ensures f.pixels == image[f.slice * ly.framesize..f.slice * ly.framesize + ly.framesize]
      ensures cnt1 < ly.slices && cnt1 < 0x8000_0000 && old(oldslice) < ly.slices - 1 && cnt1 <= old(oldslice) + 1 ==> f.slice == cnt1
      ensures cnt1 < 0x8000_0000 && old(oldslice) < ly.slices - 1 && cnt1 > old(oldslice) + 1 ==> f.slice == old(oldslice) + 1
      ensures old(oldslice) == ly.slices - 1 && (ly.slices > 1 || cnt1 < 0x8000_0000) ==> f.slice == 0
    {
      IntOf(cnt1);
      SliceInRange(ToInt(cnt1), oldslice, ly.slices);
      SliceFitsInt(cnt1, oldslice, ly.slices);
      var slice := ChooseSlice(cnt1, oldslice, ly.slices);
      f := Fill(cnt0, slice);
      FitMore(ly, sent, f);
      RecordsMore(sent, f);
      SliceBounds(ly.framesize, slice, ly.slices);
      wire, sent, oldslice := wire + buff[..], sent + [f], slice;
    }
  }

  /** One slice of an image laid out slice after slice. */
  function Slice(image: seq<byte>, framesize: nat, s: nat): seq<byte> {
    if 0 <= s * framesize && (s + 1) * framesize <= |image| && s * framesize <= (s + 1) * framesize
    then image[s * framesize..(s + 1) * framesize] else []
  }

  lemma {:induction false} SliceBounds(framesize: nat, s: nat, slices: nat)
    requires s < slices
    ensures (s + 1) * framesize == s * framesize + framesize
    ensures 0 <= s * framesize <= (s + 1) * framesize <= slices * framesize
  {
    Successor(s, framesize);
    RowsApart(s, slices, framesize);
  }
}
