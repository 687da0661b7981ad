/** Sender and receiver over a channel that loses datagrams but keeps their order: what is published. */
module UdpChannel {
  import opened Bytes
  import opened UdpSender
  import opened UdpReceiver

  /** A delivered datagram: which frame it was cut from, and its number in that frame. */
  datatype Delivery = Delivery(frame: nat, number: nat)

  /** a was sent before b. */
  predicate Before(a: Delivery, b: Delivery) {
    a.frame < b.frame || (a.frame == b.frame && a.number < b.number)
  }

  /** Delivery j was sent after the one before it. */
  predicate InOrder(ds: seq<Delivery>, j: nat)
    requires 0 < j < |ds|
  {
    Before(ds[j - 1], ds[j])
  }

  /** The datagrams sent after a and before b, all of them lost when b is delivered right after a. */
  function Lost(n: nat, a: Delivery, b: Delivery): int {
    (b.frame * n + b.number) - (a.frame * n + a.number) - 1
  }

  /** Frames of the size the receiver was set up for, and an order-preserving choice of their datagrams. */
  ghost predicate Channel(ly: Layout, frames: seq<seq<byte>>, ds: seq<Delivery>) {
    && ly.Valid()
    && (forall f :: 0 <= f < |frames| ==> |frames[f]| == ly.len)
    && (forall j :: 0 <= j < |ds| ==> ds[j].frame < |frames| && ds[j].number < NDatagrams(ly.len))
    && (forall j :: 0 < j < |ds| ==> InOrder(ds, j))
  }

  function Wire(ly: Layout, frames: seq<seq<byte>>, d: Delivery): seq<byte>
    requires d.frame < |frames| && |frames[d.frame]| == ly.len && d.number < NDatagrams(ly.len)
  {
    Datagram(frames[d.frame], d.number)
  }

  /** The receiver after j deliveries. */
  ghost function After(ly: Layout, frames: seq<seq<byte>>, ds: seq<Delivery>, rx0: Rx, j: nat): Rx
    requires Channel(ly, frames, ds) && j <= |ds|
  {
    if j == 0 then rx0 else Step(ly, After(ly, frames, ds, rx0, j - 1), Wire(ly, frames, ds[j - 1]))
  }

  lemma {:induction false} AfterNext(ly: Layout, frames: seq<seq<byte>>, ds: seq<Delivery>, rx0: Rx, j: nat)
    requires Channel(ly, frames, ds) && j < |ds|
    ensures After(ly, frames, ds, rx0, j + 1) == Step(ly, After(ly, frames, ds, rx0, j), Wire(ly, frames, ds[j]))
  {
  }

  /** The receive loop on the delivered datagrams goes through these states. */
  lemma {:induction false} LoopIsAfter(ly: Layout, step: (Rx, seq<byte>) -> Rx, frames: seq<seq<byte>>, ds: seq<Delivery>, rx0: Rx,
                                       inbox: seq<seq<byte>>, j: nat)
    requires Channel(ly, frames, ds) && Steps(step, ly) && |inbox| == |ds| && j <= |ds|
    requires forall i :: 0 <= i < |ds| ==> inbox[i] == Wire(ly, frames, ds[i])
    ensures Run(step, rx0, inbox, j) == After(ly, frames, ds, rx0, j)
  {
    if j > 0 { LoopIsAfter(ly, step, frames, ds, rx0, inbox, j - 1); }
  }

  // ----- what the receiver does depends only on the numbers of the datagrams

  predicate Accepts(m: Mode, number: nat) {
    match m
    case Stopped => false
    case Sync(waited) => waited < MAX_DATAGRAM_WAIT - 1 && number == 0
    case Expect(k) => number == k
  }

  /** The mode after a datagram, when n of them make a frame. */
  function NextMode(n: nat, m: Mode, number: nat): Mode {
    if Accepts(m, number) then (if number == n - 1 then Expect(0) else Expect(number + 1))
    else
      match m
      case Stopped => Stopped
      case Sync(waited) => if waited >= MAX_DATAGRAM_WAIT - 1 then Stopped else Sync(waited + 1)
      case Expect(_) => Sync(0)
  }

  /** The mode after j deliveries. */
  function ModeAt(n: nat, ds: seq<Delivery>, j: nat): Mode
    requires j <= |ds|
  {
    if j == 0 then Sync(0) else NextMode(n, ModeAt(n, ds, j - 1), ds[j - 1].number)
  }

  /** The receiver gives up with the 300th datagram in a row, if none of the 299 before it is a first one. */
  lemma {:induction false} GivesUp(n: nat, ds: seq<Delivery>, j: nat)
    requires j <= |ds| && forall i :: 0 <= i < j && i < 299 ==> ds[i].number != 0
    ensures ModeAt(n, ds, j) == if j < 300 then Sync(j) else Stopped
  {
    if j > 0 { GivesUp(n, ds, j - 1); }
  }

  /** The first j deliveries end with the last datagram of a frame, which is accepted. */
  predicate Ends(n: nat, ds: seq<Delivery>, j: nat)
    requires 0 < j <= |ds|
  {
    Accepts(ModeAt(n, ds, j - 1), ds[j - 1].number) && ds[j - 1].number == n - 1
  }

  /** The datagrams accepted so far for one frame were delivered one after the other. */
  lemma {:induction false} Consecutive(n: nat, ds: seq<Delivery>, j: nat, k: nat)
    requires j <= |ds| && ModeAt(n, ds, j) == Expect(k)
    ensures k <= j && forall i :: j - k <= i < j ==> ds[i].number == i - (j - k)
  {
    if k > 0 {
      var m := ModeAt(n, ds, j - 1);
      assert ModeAt(n, ds, j) == NextMode(n, m, ds[j - 1].number);
      assert ds[j - 1].number == k - 1;
      if m.Expect? { Consecutive(n, ds, j - 1, k - 1); }
    }
  }

  /** A frame is completed by n deliveries in a row, numbered from 0. */
  lemma {:induction false} EndsRow(n: nat, ds: seq<Delivery>, j: nat)
    requires 0 < j <= |ds| && Ends(n, ds, j)
    ensures 0 < n <= j && forall i :: j - n <= i < j ==> ds[i].number == i - (j - n)
  {
    var m := ModeAt(n, ds, j - 1);
    if m.Expect? { Consecutive(n, ds, j - 1, n - 1); }
  }

  // ----- what is published

  /** Bytes of the frame in datagram k. */
  function Chunk(frame: seq<byte>, k: nat): (c: seq<byte>)
    requires k < NDatagrams(|frame|)
    ensures |c| == ChunkSize(|frame|, k)
  {
    ChunkBounds(|frame|, k);
    frame[k * CHUNK..ChunkEnd(|frame|, k)]
  }

  /** The payloads of deliveries from..to, one after the other. */
  function Joined(ly: Layout, frames: seq<seq<byte>>, ds: seq<Delivery>, from: nat, to: nat): seq<byte>
    requires Channel(ly, frames, ds) && from <= to <= |ds|
  {
    if from == to then []
    else Joined(ly, frames, ds, from, to - 1) + Chunk(frames[ds[to - 1].frame], ds[to - 1].number)
  }

  /** Where the assembly ended by delivery j - 1 begins. */
  function Begin(n: nat, j: nat): nat {
    if n <= j then j - n else 0
  }

  /** The frames completed by the first j deliveries. */
  function Assemblies(ly: Layout, frames: seq<seq<byte>>, ds: seq<Delivery>, j: nat): seq<seq<byte>>
    requires Channel(ly, frames, ds) && j <= |ds|
  {
    var n := NDatagrams(ly.len);
    if j == 0 then []
    else Assemblies(ly, frames, ds, j - 1) + if Ends(n, ds, j) then [Joined(ly, frames, ds, Begin(n, j), j)] else []
  }

  /** The buffers have the sizes of the layout. */
  ghost predicate Sized(ly: Layout, rx: Rx) {
    |rx.udp| == CHUNK + 2 && |rx.buff| == ly.len && (rx.mode.Expect? ==> rx.mode.k < NDatagrams(ly.len))
  }

  /** The pixel destination and the counter reflect the published frames and nothing else. */
  ghost predicate Reflects(ly: Layout, rx0: Rx, rx: Rx) {
    var ps := rx.published;
    && ly.Valid() && rx.cnt0 == rx0.cnt0 + |ps|
    && if |ps| == 0 then rx.dest == rx0.dest
       else |ps[|ps| - 1]| == ly.len && rx.dest == ps[|ps| - 1][ly.metadata..ly.metadata + ly.framesize]
  }

  /** What is known of the receiver after j deliveries. */
  ghost predicate Tracks(ly: Layout, frames: seq<seq<byte>>, ds: seq<Delivery>, rx0: Rx, rx: Rx, j: nat)
    requires Channel(ly, frames, ds) && j <= |ds|
  {
    && Sized(ly, rx) && rx.mode == ModeAt(NDatagrams(ly.len), ds, j)
    && rx.published == Assemblies(ly, frames, ds, j) && Reflects(ly, rx0, rx)
    && (rx.mode.Expect? ==> Assembling(ly, frames, ds, rx, j))
  }

  /** The chunks before the one expected are in the frame buffer. */
  ghost predicate Assembling(ly: Layout, frames: seq<seq<byte>>, ds: seq<Delivery>, rx: Rx, j: nat)
    requires Channel(ly, frames, ds) && j <= |ds| && rx.mode.Expect?
  {
    var k := rx.mode.k;
    && k <= j && 0 <= k * CHUNK <= |rx.buff|
    && rx.buff[..k * CHUNK] == Joined(ly, frames, ds, j - k, j)
  }

  /** A datagram of a frame of the right size arrives whole. */
  lemma {:induction false} WireArrives(ly: Layout, udp: seq<byte>, frame: seq<byte>, k: nat)
    requires |udp| == CHUNK + 2 && |frame| == ly.len && k < NDatagrams(ly.len)
    ensures ChunkEnd(ly.len, k) <= |frame| && 0 <= k * CHUNK <= ChunkEnd(ly.len, k)
    ensures var r := Received(ly, udp, Datagram(frame, k));
            && |r| == CHUNK + 2 && r[0] == MAGIC && r[1] == ToChar(k)
            && r[2..2 + ChunkSize(ly.len, k)] == frame[k * CHUNK..ChunkEnd(ly.len, k)]
  {
    ChunkBounds(ly.len, k);
    var d := Datagram(frame, k);
    assert |d| == 2 + ChunkSize(ly.len, k) <= ly.FirstBytes();
    var r := Received(ly, udp, d);
    assert r[..|d|] == d;
    assert r[2..2 + ChunkSize(ly.len, k)] == d[2..];
  }

  /** Storing chunk k of a frame extends an assembled prefix. */
  lemma {:induction false} StoredExtends(ly: Layout, buff: seq<byte>, udp: seq<byte>, frame: seq<byte>, k: nat)
    requires |udp| == CHUNK + 2 && |frame| == |buff| == ly.len && k < NDatagrams(ly.len)
    requires 0 <= k * CHUNK <= ChunkEnd(ly.len, k) <= |frame|
    requires buff[..k * CHUNK] == frame[..k * CHUNK]
    requires udp[2..2 + ChunkSize(ly.len, k)] == frame[k * CHUNK..ChunkEnd(ly.len, k)]
    ensures var b := Stored(ly, buff, udp, k); |b| == |buff| && b[..ChunkEnd(ly.len, k)] == frame[..ChunkEnd(ly.len, k)]
  {
    var b := Stored(ly, buff, udp, k);
    assert b[..ChunkEnd(ly.len, k)] == buff[..k * CHUNK] + udp[2..2 + ChunkSize(ly.len, k)];
    assert frame[..ChunkEnd(ly.len, k)] == frame[..k * CHUNK] + frame[k * CHUNK..ChunkEnd(ly.len, k)];
  }

  /** The datagram buffer holds datagram d, and the frame buffer the chunks before it. */
  ghost predicate Ready(ly: Layout, frame: seq<byte>, rx: Rx, k: nat) {
    && ly.Valid() && |frame| == ly.len && k < NDatagrams(ly.len) && |rx.udp| == CHUNK + 2 && |rx.buff| == ly.len
    && 0 <= k * CHUNK <= ChunkEnd(ly.len, k) <= ly.len
    && rx.buff[..k * CHUNK] == frame[..k * CHUNK]
    && rx.udp[2..2 + ChunkSize(ly.len, k)] == frame[k * CHUNK..ChunkEnd(ly.len, k)]
  }

  /** Accepting a datagram that is not the last one extends the assembled prefix. */
  lemma {:induction false} AcceptMore(ly: Layout, frame: seq<byte>, rx: Rx, k: nat)
    requires Ready(ly, frame, rx, k) && k < NDatagrams(ly.len) - 1
    ensures var r := Accept(ly, rx, k);
            && r == rx.(mode := Expect(k + 1), buff := r.buff) && |r.buff| == ly.len
            && (k + 1) * CHUNK <= ly.len && r.buff[..(k + 1) * CHUNK] == frame[..(k + 1) * CHUNK]
  {
    ChunkBounds(ly.len, k);
    StoredExtends(ly, rx.buff, rx.udp, frame, k);
  }

  /** Accepting the last datagram publishes the frame. */
  lemma {:induction false} AcceptLast(ly: Layout, frame: seq<byte>, rx: Rx, k: nat)
    requires Ready(ly, frame, rx, k) && k == NDatagrams(ly.len) - 1
    ensures Accept(ly, rx, k) == rx.(mode := Expect(0), buff := frame, dest := frame[ly.metadata..ly.metadata + ly.framesize],
                                     cnt0 := rx.cnt0 + 1, published := rx.published + [frame])
  {
    ChunkBounds(ly.len, k);
    StoredExtends(ly, rx.buff, rx.udp, frame, k);
    var b := Stored(ly, rx.buff, rx.udp, k);
    assert b[..ly.len] == b && frame[..ly.len] == frame;
  }

  lemma {:induction false} StepAccepts(ly: Layout, rx: Rx, d: seq<byte>, k: nat)
    requires k < 128 && Accepts(rx.mode, k)
    requires var udp := Received(ly, rx.udp, d); |udp| >= 2 && udp[0] == MAGIC && udp[1] == ToChar(k)
    ensures Step(ly, rx, d) == Accept(ly, rx.(udp := Received(ly, rx.udp, d)), k)
  {
    NumberReadable(k);
  }

  /** The datagram after j deliveries arrives and is accepted as the next chunk. */
  lemma {:induction false} AcceptArrived(ly: Layout, frames: seq<seq<byte>>, ds: seq<Delivery>, rx0: Rx, rx: Rx, j: nat)
    returns (rx1: Rx, mixed: seq<byte>)
    requires Channel(ly, frames, ds) && j < |ds| && NDatagrams(ly.len) <= 128
    requires Tracks(ly, frames, ds, rx0, rx, j) && Accepts(rx.mode, ds[j].number)
    ensures rx1 == rx.(udp := rx1.udp) && |rx1.udp| == CHUNK + 2
    ensures Step(ly, rx, Wire(ly, frames, ds[j])) == Accept(ly, rx1, ds[j].number)
    ensures var k := ds[j].number;
            k <= j && Ready(ly, mixed, rx1, k) && mixed[..ChunkEnd(ly.len, k)] == Joined(ly, frames, ds, j - k, j + 1)
  {
    var k, frame := ds[j].number, frames[ds[j].frame];
    WireArrives(ly, rx.udp, frame, k);
    rx1 := rx.(udp := Received(ly, rx.udp, Wire(ly, frames, ds[j])));
    StepAccepts(ly, rx, Wire(ly, frames, ds[j]), k);
    var before := if rx.mode.Expect? then Joined(ly, frames, ds, j - k, j) else [];
    mixed := MixedFrame(ly, rx1, before, frame, k);
    JoinedMore(ly, frames, ds, j, k, before);
  }

  lemma {:induction false} AcceptTracks(ly: Layout, frames: seq<seq<byte>>, ds: seq<Delivery>, rx0: Rx, rx: Rx, j: nat) returns (r: Rx)
    requires Channel(ly, frames, ds) && j < |ds| && NDatagrams(ly.len) <= 128
    requires Tracks(ly, frames, ds, rx0, rx, j) && Accepts(rx.mode, ds[j].number)
    ensures r == Step(ly, rx, Wire(ly, frames, ds[j])) && Tracks(ly, frames, ds, rx0, r, j + 1)
  {
    var rx1, mixed := AcceptArrived(ly, frames, ds, rx0, rx, j);
    r := Accept(ly, rx1, ds[j].number);
    if ds[j].number < NDatagrams(ly.len) - 1 {
      MoreTracks(ly, frames, ds, rx0, rx1, j, mixed);
    } else {
      LastTracks(ly, frames, ds, rx0, rx1, j, mixed);
    }
  }

  /** A datagram that is not the last of its frame. */
  lemma {:induction false} MoreTracks(ly: Layout, frames: seq<seq<byte>>, ds: seq<Delivery>, rx0: Rx, rx1: Rx, j: nat, mixed: seq<byte>)
    requires Channel(ly, frames, ds) && j < |ds| && rx1.published == Assemblies(ly, frames, ds, j) && Reflects(ly, rx0, rx1)
    requires var k := ds[j].number;
             && Accepts(ModeAt(NDatagrams(ly.len), ds, j), k) && k < NDatagrams(ly.len) - 1 && Ready(ly, mixed, rx1, k)
             && k <= j && mixed[..ChunkEnd(ly.len, k)] == Joined(ly, frames, ds, j - k, j + 1)
    ensures Tracks(ly, frames, ds, rx0, Accept(ly, rx1, ds[j].number), j + 1)
  {
    AcceptMore(ly, mixed, rx1, ds[j].number);
    assert Assemblies(ly, frames, ds, j + 1) == Assemblies(ly, frames, ds, j);
  }

  /** The last datagram of a frame. */
  lemma {:induction false} LastTracks(ly: Layout, frames: seq<seq<byte>>, ds: seq<Delivery>, rx0: Rx, rx1: Rx, j: nat, mixed: seq<byte>)
    requires Channel(ly, frames, ds) && j < |ds| && rx1.published == Assemblies(ly, frames, ds, j) && Reflects(ly, rx0, rx1)
    requires var n := NDatagrams(ly.len);
             && Ends(n, ds, j + 1) && Ready(ly, mixed, rx1, n - 1)
             && n - 1 <= j && mixed[..ChunkEnd(ly.len, n - 1)] == Joined(ly, frames, ds, j - (n - 1), j + 1)
    ensures Tracks(ly, frames, ds, rx0, Accept(ly, rx1, NDatagrams(ly.len) - 1), j + 1)
  {
    var n := NDatagrams(ly.len);
    AcceptLast(ly, mixed, rx1, n - 1);
    ChunkBounds(ly.len, n - 1);
    assert mixed[..ly.len] == mixed;
    assert Assemblies(ly, frames, ds, j + 1) == Assemblies(ly, frames, ds, j) + [mixed];
    assert Joined(ly, frames, ds, j + 1, j + 1) == [];
  }

  /** What is in the frame buffer before chunk k, and the rest of the frame that chunk k is from. */
  lemma {:induction false} MixedFrame(ly: Layout, rx1: Rx, before: seq<byte>, frame: seq<byte>, k: nat) returns (mixed: seq<byte>)
    requires ly.Valid() && |frame| == |rx1.buff| == ly.len && k < NDatagrams(ly.len) && |rx1.udp| == CHUNK + 2
    requires 0 <= k * CHUNK <= ChunkEnd(ly.len, k) <= ly.len
    requires before == rx1.buff[..k * CHUNK] && rx1.udp[2..2 + ChunkSize(ly.len, k)] == frame[k * CHUNK..ChunkEnd(ly.len, k)]
    ensures Ready(ly, mixed, rx1, k) && mixed[..ChunkEnd(ly.len, k)] == before + Chunk(frame, k)
  {
    mixed := before + frame[k * CHUNK..];
    assert mixed[k * CHUNK..ChunkEnd(ly.len, k)] == frame[k * CHUNK..ChunkEnd(ly.len, k)];
    assert mixed[..ChunkEnd(ly.len, k)] == before + Chunk(frame, k);
  }

  lemma {:induction false} JoinedMore(ly: Layout, frames: seq<seq<byte>>, ds: seq<Delivery>, j: nat, k: nat, before: seq<byte>)
    requires Channel(ly, frames, ds) && k <= j < |ds| && ds[j].number == k && before == Joined(ly, frames, ds, j - k, j)
    ensures Joined(ly, frames, ds, j - k, j + 1) == before + Chunk(frames[ds[j].frame], k)
  {
  }

  /** The datagram after j deliveries is not accepted. */
  lemma {:induction false} RefuseTracks(ly: Layout, frames: seq<seq<byte>>, ds: seq<Delivery>, rx0: Rx, rx: Rx, j: nat) returns (r: Rx)
    requires Channel(ly, frames, ds) && j < |ds| && NDatagrams(ly.len) <= 128
    requires Tracks(ly, frames, ds, rx0, rx, j) && !Accepts(rx.mode, ds[j].number)
    ensures r == Step(ly, rx, Wire(ly, frames, ds[j])) && Tracks(ly, frames, ds, rx0, r, j + 1)
  {
    var d := ds[j];
    r := Step(ly, rx, Wire(ly, frames, d));
    WireArrives(ly, rx.udp, frames[d.frame], d.number);
    NumberReadable(d.number);
  }

  lemma {:induction false} StepTracks(ly: Layout, frames: seq<seq<byte>>, ds: seq<Delivery>, rx0: Rx, rx: Rx, j: nat) returns (r: Rx)
    requires Channel(ly, frames, ds) && j < |ds| && NDatagrams(ly.len) <= 128 && Tracks(ly, frames, ds, rx0, rx, j)
    ensures r == Step(ly, rx, Wire(ly, frames, ds[j])) && Tracks(ly, frames, ds, rx0, r, j + 1)
  {
    if Accepts(rx.mode, ds[j].number) {
      r := AcceptTracks(ly, frames, ds, rx0, rx, j);
    } else {
      r := RefuseTracks(ly, frames, ds, rx0, rx, j);
    }
  }

  lemma {:induction false} StartTracks(ly: Layout, frames: seq<seq<byte>>, ds: seq<Delivery>, rx0: Rx)
    requires Channel(ly, frames, ds) && Sized(ly, rx0) && rx0.mode == Sync(0) && rx0.published == []
    ensures Tracks(ly, frames, ds, rx0, rx0, 0)
  {
  }

  /** rs are the states of a run, one before each delivery and one at the end. */
  ghost predicate Trace(ly: Layout, frames: seq<seq<byte>>, ds: seq<Delivery>, rs: seq<Rx>)
    requires Channel(ly, frames, ds)
  {
    |rs| == |ds| + 1 && forall j :: 0 <= j < |ds| ==> Follows(ly, frames, ds, rs, j)
  }

  ghost predicate Follows(ly: Layout, frames: seq<seq<byte>>, ds: seq<Delivery>, rs: seq<Rx>, j: nat)
    requires Channel(ly, frames, ds) && j < |ds| && |rs| == |ds| + 1
  {
    rs[j + 1] == Step(ly, rs[j], Wire(ly, frames, ds[j]))
  }

  lemma {:induction false} TraceTracks(ly: Layout, frames: seq<seq<byte>>, ds: seq<Delivery>, rs: seq<Rx>, j: nat)
    requires Channel(ly, frames, ds) && NDatagrams(ly.len) <= 128 && j <= |ds| && Trace(ly, frames, ds, rs)
    requires Sized(ly, rs[0]) && rs[0].mode == Sync(0) && rs[0].published == []
    ensures Tracks(ly, frames, ds, rs[0], rs[j], j)
  {
    if j == 0 {
      StartTracks(ly, frames, ds, rs[0]);
    } else {
      TraceTracks(ly, frames, ds, rs, j - 1);
      var r := StepTracks(ly, frames, ds, rs[0], rs[j - 1], j - 1);
      assert Follows(ly, frames, ds, rs, j - 1);
    }
  }

  lemma {:induction false} RunTrace(ly: Layout, frames: seq<seq<byte>>, ds: seq<Delivery>, rx0: Rx, j: nat) returns (rs: seq<Rx>)
    requires Channel(ly, frames, ds) && j <= |ds|
    ensures Trace(ly, frames, ds, rs) && rs[0] == rx0 && rs[j] == After(ly, frames, ds, rx0, j)
  {
    rs := seq(|ds| + 1, i requires 0 <= i <= |ds| => After(ly, frames, ds, rx0, i));
    forall i | 0 <= i < |ds| ensures Follows(ly, frames, ds, rs, i) { AfterNext(ly, frames, ds, rx0, i); }
  }

  /** Main result: after j deliveries the receiver has published exactly the completed assemblies, each the
      payloads of n datagrams delivered in a row; the pixels and the counter show exactly these. */
  lemma {:induction false} PublishedExactly(ly: Layout, frames: seq<seq<byte>>, ds: seq<Delivery>, rx0: Rx, j: nat)
    requires Channel(ly, frames, ds) && NDatagrams(ly.len) <= 128 && j <= |ds|
    requires Sized(ly, rx0) && rx0.mode == Sync(0) && rx0.published == []
    ensures Tracks(ly, frames, ds, rx0, After(ly, frames, ds, rx0, j), j)
  {
    var rs := RunTrace(ly, frames, ds, rx0, j);
    TraceTracks(ly, frames, ds, rs, j);
  }
}
