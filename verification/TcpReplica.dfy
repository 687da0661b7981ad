/** The receiving end of the byte stream. */
module TcpReplica {
  import opened Bytes
  import opened Index
  import opened TcpStream

  /** The transfer buffer, the replica with its keywords and counters, and whether pixels have been written to a
      slice that does not exist. */
  datatype Replica = Replica(buff: seq<byte>, image: seq<byte>, kw: seq<byte>, cnt0: nat, cnt1: int, outside: bool)

  /** A 64-bit word as a signed long. */
  function ToLong(x: nat): int {
    if x < 0x8000_0000_0000_0000 then x else x - 0x1_0000_0000_0000_0000
  }

  /** It is congruent to the word modulo 2 to the 64, and a word below 2 to the 63 stays as it is. */
  lemma {:induction false} LongOf(x: nat)
    requires x < 0x1_0000_0000_0000_0000
    ensures -0x8000_0000_0000_0000 <= ToLong(x) < 0x8000_0000_0000_0000
    ensures x == ToLong(x) || x == ToLong(x) + 0x1_0000_0000_0000_0000
  {
  }

  /** The slice number in a record. */
  function SliceIn(ly: Layout, buff: seq<byte>): int
    requires |buff| == ly.RecordSize()
  {
    ToLong(Decode(buff[ly.framesize + 8..ly.framesize + 16]))
  }

  /** Slice s exists. */
  predicate Exists(ly: Layout, s: int) {
    0 <= s < ly.slices
  }

  /** The image with slice s replaced.  A write outside the image leaves it as it is. */
  function Put(ly: Layout, image: seq<byte>, s: int, pixels: seq<byte>): seq<byte> {
    if Exists(ly, s) && 0 <= s * ly.framesize && s * ly.framesize + |pixels| <= |image|
    then image[..s * ly.framesize] + pixels + image[s * ly.framesize + |pixels|..]
    else image
  }

  /** Where a record for slice s goes. */
  function Target(ly: Layout, s: int): int {
    if ly.slices > 1 then s else 0
  }

  /** One receive of at most a record, and what is done with it. */
  function Apply(ly: Layout, r: Replica, data: seq<byte>): Replica
    requires |r.buff| == ly.RecordSize() && |data| <= ly.RecordSize()
  {
    var buff := data + r.buff[|data|..];
    var s := SliceIn(ly, buff);
    Replica(buff, Put(ly, r.image, Target(ly, s), buff[..ly.framesize]), buff[ly.framesize + 16..], r.cnt0 + 1, s,
            r.outside || !Exists(ly, Target(ly, s)))
  }

  function Shorter(a: int, b: int): int {
    if a <= b then a else b
  }

  /** The replica once everything from `pos` on has been received. */
  function Played(ly: Layout, r: Replica, wire: seq<byte>, pos: nat): Replica
    requires |r.buff| == ly.RecordSize() && pos <= |wire|
    decreases |wire| - pos
  {
    if pos == |wire| then r
    else
      var next := Shorter(pos + ly.RecordSize(), |wire|);
      Played(ly, Apply(ly, r, wire[pos..next]), wire, next)
  }

  lemma {:induction false} PlayedStep(ly: Layout, r: Replica, wire: seq<byte>, pos: nat, next: nat)
    requires |r.buff| == ly.RecordSize() && pos < |wire| && next == Shorter(pos + ly.RecordSize(), |wire|)
    ensures next <= |wire| && |wire[pos..next]| <= ly.RecordSize()
    ensures Played(ly, r, wire, pos) == Played(ly, Apply(ly, r, wire[pos..next]), wire, next)
  {
  }

  // ----- the receive loop

  class Receiver {
    const ly: Layout
    const buff: array<byte>
    const image: array<byte>
    const kw: array<byte>
    var cnt0: nat
    var cnt1: int
    ghost var outside: bool

    ghost predicate Valid()
      reads this
    {
      && ly.Valid() && image.Length == ly.slices * ly.framesize && kw.Length == ly.kwsize && buff.Length == ly.RecordSize()
      && image != buff && kw != buff && image != kw
    }

    ghost function State(): Replica
      reads this, buff, image, kw
    {
      Replica(buff[..], image[..], kw[..], cnt0, cnt1, outside)
    }

    constructor (layout: Layout)
      requires layout.Valid()
      ensures Valid() && ly == layout && fresh(buff) && fresh(image) && fresh(kw) && cnt0 == 0 && !outside
    {
      ly := layout;
      buff := new byte[layout.RecordSize()];
      image := new byte[layout.slices * layout.framesize];
      kw := new byte[layout.kwsize];
      cnt0, cnt1, outside := 0, 0, false;
    }

    /** Drops what has piled up before the start.  `arrived[i]` bytes are there to be read at the i-th
        attempt; the last read waits for its data and comes back short only at the end of the stream. */
    method Flush(wire: seq<byte>, arrived: seq<nat>) returns (pos: nat)
      requires Valid()
      ensures pos <= |wire| && (pos % ly.RecordSize() == 0 || pos == |wire|)
      ensures pos == Shorter(Flushed(arrived, ly.RecordSize()) * ly.RecordSize(), |wire|)
    {
      var full := ly.RecordSize();
      pos := 0;
      var attempt := 0;
      var recvBytes := full;
      ghost var k := 0;
      while recvBytes == full
        invariant 0 <= recvBytes <= full && pos <= |wire| && attempt <= |arrived| + 1
        invariant pos == k * full + (if recvBytes == full then 0 else recvBytes) && k >= 0
        invariant attempt == |arrived| + 1 ==> recvBytes != full
        invariant (if recvBytes == full then attempt == k else attempt == k + 1) && Plenty(arrived, full, k)
        invariant recvBytes != full ==> recvBytes == Shorter(full, Shorter(Waiting(arrived, k), |wire| - k * full))
        decreases |arrived| + 1 - attempt
      {
        var there := Waiting(arrived, attempt);
        recvBytes := Shorter(full, Shorter(there, |wire| - pos));
        pos := pos + recvBytes;
        if recvBytes == full {
          Successor(k, full);
          k := k + 1;
        }
        attempt := attempt + 1;
      }
      FlushEnds(arrived, full, |wire|, k, recvBytes);
      if recvBytes > 0 {
        pos := pos + Shorter(full - recvBytes, |wire| - pos);
        Successor(k, full);
        k := k + 1;
      }
      if pos < |wire| { DivModOf(k, 0, full); }
    }

    /** Copies n bytes. */
    method Copy(src: array<byte>, from: nat, dst: array<byte>, to: nat, n: nat)
      requires src != dst && from + n <= src.Length && to + n <= dst.Length
      modifies dst
      ensures dst[..] == old(dst[..to]) + src[from..from + n] + old(dst[to + n..])
    {
      ghost var before := dst[..];
      for i := 0 to n
        invariant forall j :: to <= j < to + i ==> dst[j] == src[j - to + from]
        invariant forall j :: 0 <= j < dst.Length && !(to <= j < to + i) ==> dst[j] == before[j]
      {
        dst[to + i] := src[from + i];
      }
    }

    /** One call of recv into the transfer buffer. */
    method Recv(data: seq<byte>)
      requires Valid() && |data| <= ly.RecordSize()
      modifies buff
      ensures buff[..] == data + old(buff[|data|..])
    {
      for i := 0 to |data|
        invariant forall j :: 0 <= j < i ==> buff[j] == data[j]
        invariant forall j :: i <= j < buff.Length ==> buff[j] == old(buff[j])
      {
        buff[i] := data[i];
      }
    }

    /** Reads and decodes the slice number in the buffer. */
    method ReadSlice() returns (s: int)
      requires Valid()
      ensures s == SliceIn(ly, buff[..])
    {
      s := ToLong(Decode(buff[ly.framesize + 8..ly.framesize + 16]));
      assert buff[ly.framesize + 8..ly.framesize + 16] == buff[..][ly.framesize + 8..ly.framesize + 16];
    }

    /** Copies the pixels to the slice they are for, or notes that there is no such slice. */
    method CopyPixels(s: int)
      requires Valid()
      modifies image, this`outside
      ensures image[..] == Put(ly, old(image[..]), Target(ly, s), buff[..][..ly.framesize])
      ensures outside == (old(outside) || !Exists(ly, Target(ly, s)))
    {
      var target := if ly.slices > 1 then s else 0;
      if 0 <= target < ly.slices {
        SliceBounds(ly.framesize, target, ly.slices);
        Copy(buff, 0, image, target * ly.framesize, ly.framesize);
      } else {
        outside := true;
      }
    }

    /** Copies the keywords. */
    method CopyKeywords()
      requires Valid()
      modifies kw
      ensures kw[..] == buff[..][ly.framesize + 16..]
    {
      Copy(buff, ly.framesize + 16, kw, 0, ly.kwsize);
    }

    /** Receives a record, or what is left of one, and updates the replica. */
    method ReceiveOne(data: seq<byte>)
      requires Valid() && |data| <= ly.RecordSize()
      modifies this`cnt0, this`cnt1, this`outside, buff, image, kw
      ensures State() == old(Apply(ly, State(), data))
    {
      Recv(data);
      var s := ReadSlice();
      cnt1 := s;
      CopyPixels(s);
      CopyKeywords();
      cnt0 := cnt0 + 1;
    }

    /** The receive loop, until the stream is closed. */
    method Receive(wire: seq<byte>, start: nat)
      requires Valid() && start <= |wire|
      modifies this`cnt0, this`cnt1, this`outside, buff, image, kw
      ensures State() == old(Played(ly, State(), wire, start))
    {
      ghost var all := Played(ly, State(), wire, start);
      var pos := start;
      while pos < |wire|
        invariant pos <= |wire|
        invariant Played(ly, State(), wire, pos) == all
      {
        var next := Shorter(pos + ly.RecordSize(), |wire|);
        PlayedStep(ly, State(), wire, pos, next);
        ReceiveOne(wire[pos..next]);
        pos := next;
      }
    }

    /** Flush and receive loop together, on a stream of whole records, as a valid sender leaves it on its
        wire: the flush drops q of them, and each slice of the replica shows the last of the others that was
        sent for it. */
    method Replicate(wire: seq<byte>, arrived: seq<nat>, ghost frames: seq<Frame>) returns (ghost q: nat)
      requires Valid() && AllFit(ly, frames) && wire == Records(frames)
      modifies this`cnt0, this`cnt1, this`outside, buff, image, kw
      ensures q <= |frames| && cnt0 == old(cnt0) + |frames| - q && outside == old(outside)
      ensures q == Shorter(Flushed(arrived, ly.RecordSize()), |frames|)
      ensures forall s: nat :: s < ly.slices ==> Slice(image[..], ly.framesize, s) == Shown(ly, old(image[..]), frames, q, s)
    {
      var pos := Flush(wire, arrived);
      q := FlushedToBoundary(ly, frames, pos);
      RecordsLength(ly, frames);
      RecordsDropped(q, Flushed(arrived, ly.RecordSize()), |frames|, ly.RecordSize());
      ghost var r := State();
      Receive(wire, pos);
      ReplicaShowsLastSent(ly, r, frames, q, pos, 0);
      forall s: nat | s < ly.slices
        ensures Slice(image[..], ly.framesize, s) == Shown(ly, old(image[..]), frames, q, s)
      {
        ReplicaShowsLastSent(ly, r, frames, q, pos, s);
      }
    }
  }

  // ----- what the flush drops

  /** The first attempts, up to index i, find a whole record each. */
  ghost predicate Plenty(arrived: seq<nat>, full: nat, i: nat) {
    i <= |arrived| && forall j :: 0 <= j < i ==> arrived[j] >= full
  }

  /** The number of attempts from i on that find a whole record, one after the other. */
  function Leading(arrived: seq<nat>, full: nat, i: nat): (k: nat)
    requires i <= |arrived|
    ensures i + k <= |arrived| && (i + k < |arrived| ==> arrived[i + k] < full)
    ensures forall j :: i <= j < i + k ==> arrived[j] >= full
    decreases |arrived| - i
  {
    if i < |arrived| && arrived[i] >= full then 1 + Leading(arrived, full, i + 1) else 0
  }

  /** The bytes to be read at attempt k. */
  function Waiting(arrived: seq<nat>, k: nat): nat {
    if k < |arrived| then arrived[k] else 0
  }

  lemma {:induction false} LeadingFrom(arrived: seq<nat>, full: nat, i: nat)
    requires Plenty(arrived, full, i)
    ensures Leading(arrived, full, 0) == i + Leading(arrived, full, i)
  {
    if i > 0 { LeadingFrom(arrived, full, i - 1); }
  }

  /** Where the flush stops when the read at attempt k comes back short. */
  lemma {:induction false} FlushEnds(arrived: seq<nat>, full: nat, len: nat, k: nat, got: nat)
    requires full > 0 && Plenty(arrived, full, k) && 0 <= k * full <= len && got < full
    requires got == Shorter(full, Shorter(Waiting(arrived, k), len - k * full))
    ensures Shorter(Flushed(arrived, full) * full, len) ==
            k * full + got + if got > 0 then Shorter(full - got, len - (k * full + got)) else 0
  {
    var n := Flushed(arrived, full);
    LeadingFrom(arrived, full, k);
    Successor(k, full);
    if n > k + 1 { RowsApart(k + 1, n, full); }
    if n > k { RowsApart(k, n, full); }
  }

  /** The records dropped: those found whole, and the one that a short read has begun. */
  function Flushed(arrived: seq<nat>, full: nat): nat {
    var k := Leading(arrived, full, 0);
    if k < |arrived| && arrived[k] > 0 then k + 1 else k
  }

  // ----- what the replica shows

  /** The last of frames q, q + 1, ... that shows slice s, or -1. */
  function LastOf(frames: seq<Frame>, q: nat, s: int): (i: int)
    requires q <= |frames|
    ensures -1 <= i < |frames|
    decreases |frames| - q
  {
    if q == |frames| then -1
    else if LastOf(frames, q + 1, s) != -1 then LastOf(frames, q + 1, s)
    else if frames[q].slice == s then q
    else -1
  }

  lemma {:induction false} LastOfIsLast(frames: seq<Frame>, q: nat, s: int)
    requires q <= |frames|
    ensures var i := LastOf(frames, q, s);
            && (i == -1 || (q <= i < |frames| && frames[i].slice == s))
            && forall j :: q <= j < |frames| && frames[j].slice == s ==> j <= i
    decreases |frames| - q
  {
    if q < |frames| { LastOfIsLast(frames, q + 1, s); }
  }

  /** Slice s of an image after frames q, q + 1, ... */
  function Shown(ly: Layout, image: seq<byte>, frames: seq<Frame>, q: nat, s: nat): seq<byte>
    requires q <= |frames|
  {
    var i := LastOf(frames, q, s);
    if i == -1 then Slice(image, ly.framesize, s) else frames[i].pixels
  }

  lemma {:induction false} RecordsLength(ly: Layout, frames: seq<Frame>)
    requires AllFit(ly, frames)
    ensures |Records(frames)| == |frames| * ly.RecordSize()
  {
    if |frames| > 0 {
      RecordsLength(ly, frames[..|frames| - 1]);
      Successor(|frames| - 1, ly.RecordSize());
    }
  }

  /** Record i of the stream. */
  lemma {:induction false} RecordAt(ly: Layout, frames: seq<Frame>, i: nat)
    requires AllFit(ly, frames) && i < |frames|
    ensures 0 <= i * ly.RecordSize() && i * ly.RecordSize() + ly.RecordSize() <= |Records(frames)|
    ensures Records(frames)[i * ly.RecordSize()..i * ly.RecordSize() + ly.RecordSize()] == Record(frames[i])
  {
    var n := |frames| - 1;
    RecordsLength(ly, frames);
    RecordsLength(ly, frames[..n]);
    RowsApart(i, |frames|, ly.RecordSize());
    if i < n {
      RecordAt(ly, frames[..n], i);
    } else {
      assert Records(frames)[n * ly.RecordSize()..] == Record(frames[n]);
    }
  }

  /** Receiving a whole record: exactly its slice changes, and changes to its pixels. */
  lemma {:induction false} ApplyRecord(ly: Layout, r: Replica, f: Frame)
    requires ly.Valid() && Fits(ly, f) && |r.buff| == ly.RecordSize() && |r.image| == ly.slices * ly.framesize
    ensures var r' := Apply(ly, r, Record(f));
            r' == Replica(Record(f), Put(ly, r.image, f.slice, f.pixels), f.kw, r.cnt0 + 1, f.slice, r.outside)
  {
    var buff := Record(f);
    assert buff + r.buff[|buff|..] == buff == [] + buff[0..];
    SliceOfRecord(ly, f);
    assert buff[..ly.framesize] == f.pixels;
    assert buff[ly.framesize + 16..] == f.kw;
  }

  lemma {:induction false} SmallFits(x: nat)
    requires x < 0x8000_0000
    ensures x < Pow256(8)
  {
    assert Pow256(2) == 65536;
    assert Pow256(4) == 0x1_0000_0000;
    assert Pow256(6) >= Pow256(4);
    assert Pow256(8) >= Pow256(6);
  }

  lemma {:induction false} PutSlice(ly: Layout, image: seq<byte>, s: nat, pixels: seq<byte>, t: nat)
    requires |image| == ly.slices * ly.framesize && s < ly.slices && t < ly.slices && |pixels| == ly.framesize
    ensures |Put(ly, image, s, pixels)| == |image|
    ensures Slice(Put(ly, image, s, pixels), ly.framesize, t) == if t == s then pixels else Slice(image, ly.framesize, t)
  {
    SliceBounds(ly.framesize, s, ly.slices);
    SliceBounds(ly.framesize, t, ly.slices);
    if s < t {
      RowsApart(s, t, ly.framesize);
    } else if t < s {
      RowsApart(t, s, ly.framesize);
    }
  }

  /** Main result: the replica after whole records from q on.  Every slice shows the pixels of the last
      of these records that was sent for it; a slice with no such record is as it was. */
  lemma {:induction false} ReplicaShowsLastSent(ly: Layout, r: Replica, frames: seq<Frame>, q: nat, pos: nat, s: nat)
    requires ly.Valid() && AllFit(ly, frames) && q <= |frames| && s < ly.slices
    requires |r.buff| == ly.RecordSize() && |r.image| == ly.slices * ly.framesize
    requires pos == q * ly.RecordSize() && pos <= |Records(frames)|
    ensures var r' := Played(ly, r, Records(frames), pos);
            && Slice(r'.image, ly.framesize, s) == Shown(ly, r.image, frames, q, s)
            && r'.cnt0 == r.cnt0 + |frames| - q && r'.outside == r.outside
            && (q < |frames| ==> r'.kw == frames[|frames| - 1].kw && r'.cnt1 == frames[|frames| - 1].slice)
    ensures var r' := Played(ly, r, Records(frames), pos);
            |r'.image| == |r.image| && (q < |frames| ==> r'.buff == Record(frames[|frames| - 1]))
    decreases |frames| - q
  {
    RecordsLength(ly, frames);
    if q < |frames| {
      var next := PlayedNext(ly, r, frames, q, pos);
      var r1 := Apply(ly, r, Record(frames[q]));
      ApplyRecord(ly, r, frames[q]);
      PutSlice(ly, r.image, frames[q].slice, frames[q].pixels, s);
      ReplicaShowsLastSent(ly, r1, frames, q + 1, next, s);
      LastOfIsLast(frames, q + 1, s);
    }
  }

  /** The next record is a whole one, and is the one that was sent next. */
  lemma {:induction false} PlayedNext(ly: Layout, r: Replica, frames: seq<Frame>, q: nat, pos: nat) returns (next: nat)
    requires AllFit(ly, frames) && q < |frames| && |r.buff| == ly.RecordSize()
    requires pos == q * ly.RecordSize() && pos <= |Records(frames)|
    ensures next == (q + 1) * ly.RecordSize() && next <= |Records(frames)|
    ensures |Record(frames[q])| == ly.RecordSize()
    ensures Played(ly, r, Records(frames), pos) == Played(ly, Apply(ly, r, Record(frames[q])), Records(frames), next)
  {
    RecordAt(ly, frames, q);
    Successor(q, ly.RecordSize());
    next := pos + ly.RecordSize();
    assert Records(frames)[pos..next] == Record(frames[q]);
  }

  /** Whatever the flush dropped, whole records remain. */
  lemma {:induction false} FlushedToBoundary(ly: Layout, frames: seq<Frame>, pos: nat) returns (q: nat)
    requires AllFit(ly, frames) && pos <= |Records(frames)|
    requires pos % ly.RecordSize() == 0 || pos == |Records(frames)|
    ensures q <= |frames| && pos == q * ly.RecordSize()
  {
    RecordsLength(ly, frames);
    if pos == |Records(frames)| {
      q := |frames|;
    } else {
      q := pos / ly.RecordSize();
      DivMod(pos, ly.RecordSize());
      if q > |frames| { RowsApart(|frames|, q, ly.RecordSize()); }
    }
  }

  lemma {:induction false} RecordsDropped(q: nat, n: nat, m: nat, full: nat)
    requires full > 0 && q * full == Shorter(n * full, m * full)
    ensures q == Shorter(n, m)
  {
    var k := Shorter(n, m);
    if n < m { RowsApart(n, m, full); }
    if m < n { RowsApart(m, n, full); }
    assert q * full == k * full;
    if q < k { RowsApart(q, k, full); }
    if k < q { RowsApart(k, q, full); }
  }

  /** Any record of full length, whatever number it carries: with one slice its pixels are the new image; with several they
      go to the slice of that number, or outside the image when there is none. */
  lemma {:induction false} AnyRecord(ly: Layout, r: Replica, data: seq<byte>, s: int, t: nat)
    requires ly.Valid() && |r.buff| == |data| == ly.RecordSize() && |r.image| == ly.slices * ly.framesize && t < ly.slices
    requires s == SliceIn(ly, data)
    ensures var r' := Apply(ly, r, data);
            && r'.buff == data && r'.kw == data[ly.framesize + 16..] && r'.cnt0 == r.cnt0 + 1 && r'.cnt1 == s
            && (ly.slices == 1 ==> Slice(r'.image, ly.framesize, 0) == data[..ly.framesize] && r'.outside == r.outside)
            && (ly.slices > 1 ==> Slice(r'.image, ly.framesize, t) == if t == s then data[..ly.framesize] else Slice(r.image, ly.framesize, t))
            && (ly.slices > 1 ==> r'.outside == (r.outside || s < 0 || s >= ly.slices))
  {
    assert data + r.buff[|data|..] == data;
    var target := if ly.slices > 1 then s else 0;
    if 0 <= target < ly.slices { PutSlice(ly, r.image, target, data[..ly.framesize], t); }
  }

  lemma {:induction false} SliceOfRecord(ly: Layout, f: Frame)
    requires Fits(ly, f)
    ensures |Record(f)| == ly.RecordSize() && SliceIn(ly, Record(f)) == f.slice
  {
    var n := ly.framesize + 8;
    assert Record(f)[n..n + 8] == Encode(f.slice, 8);
    SmallFits(f.slice);
    DecodeEncode(f.slice, 8);
  }
}
