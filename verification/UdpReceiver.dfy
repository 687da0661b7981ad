/** The receiving side: a machine that reassembles frames and resynchronises after any irregularity. */
module UdpReceiver {
  import opened Bytes
  import opened UdpSender

  /** After this many datagrams without a first one the receiver gives up. */
  const MAX_DATAGRAM_WAIT: nat := 300

  /** Sizes of the record: all of it, the metadata in front, and the pixels behind the metadata. */
  datatype Layout = Layout(len: nat, metadata: nat, framesize: nat) {
    ghost predicate Valid() {
      metadata + framesize <= len
    }

    /** The number of bytes asked of the socket: the size of a first datagram. */
    function FirstBytes(): nat {
      if NDatagrams(len) == 1 then LastChunk(len) + 2 else CHUNK + 2
    }
  }

  /** Looking for a first datagram (and how many have been looked at), waiting for datagram k, or stopped. */
  datatype Mode = Sync(waited: nat) | Expect(k: nat) | Stopped

  /** The two buffers, the pixel destination and its counter; `published` records every frame that
      reached the destination. */
  datatype Rx = Rx(mode: Mode, udp: seq<byte>, buff: seq<byte>, dest: seq<byte>, cnt0: nat, published: seq<seq<byte>>)

  /** A received datagram lies over what the datagram buffer held before. */
  function Received(ly: Layout, udp: seq<byte>, d: seq<byte>): seq<byte> {
    var n := if |d| <= ly.FirstBytes() then |d| else ly.FirstBytes();
    if n <= |udp| then d[..n] + udp[n..] else udp
  }

  predicate IsNumber(udp: seq<byte>, k: nat) {
    |udp| >= 2 && udp[0] == MAGIC && udp[1] as int == k
  }

  /** The frame buffer with the payload of the datagram buffer in place of chunk k. */
  function Stored(ly: Layout, buff: seq<byte>, udp: seq<byte>, k: nat): seq<byte> {
    if ChunkEnd(ly.len, k) <= |buff| && 2 + ChunkSize(ly.len, k) <= |udp| then
      buff[..k * CHUNK] + udp[2..2 + ChunkSize(ly.len, k)] + buff[ChunkEnd(ly.len, k)..]
    else buff
  }

  /** Datagram k has been accepted; the last one publishes the frame. */
  function Accept(ly: Layout, rx: Rx, k: nat): Rx {
    var buff := Stored(ly, rx.buff, rx.udp, k);
    if k == NDatagrams(ly.len) - 1 then
      rx.(mode := Expect(0), buff := buff,
          dest := if ly.metadata + ly.framesize <= |buff| then buff[ly.metadata..ly.metadata + ly.framesize] else rx.dest,
          cnt0 := rx.cnt0 + 1, published := rx.published + [buff])
    else rx.(mode := Expect(k + 1), buff := buff)
  }

  function Step(ly: Layout, rx: Rx, d: seq<byte>): Rx {
    var rx1 := rx.(udp := Received(ly, rx.udp, d));
    match rx.mode
    case Stopped => rx
    case Sync(w) =>
      if w >= MAX_DATAGRAM_WAIT - 1 then rx1.(mode := Stopped)
      else if IsNumber(rx1.udp, 0) then Accept(ly, rx1, 0)
      else rx1.(mode := Sync(w + 1))
    case Expect(k) =>
      if IsNumber(rx1.udp, k) then Accept(ly, rx1, k) else rx1.(mode := Sync(0))
  }

  /** The state after the first n datagrams of the inbox. */
  function Run(step: (Rx, seq<byte>) -> Rx, rx: Rx, inbox: seq<seq<byte>>, n: nat): Rx
    requires n <= |inbox|
  {
    if n == 0 then rx else step(Run(step, rx, inbox, n - 1), inbox[n - 1])
  }

  /** step is the step of this receiver. */
  ghost predicate Steps(step: (Rx, seq<byte>) -> Rx, ly: Layout) {
    forall rx: Rx, d: seq<byte> {:trigger Step(ly, rx, d)} :: step(rx, d) == Step(ly, rx, d)
  }

  /** The two header bytes after datagram d has been received: what is missing of a short one is still from before. */
  ghost predicate Headed(udp: seq<byte>, d: seq<byte>, k: int)
    requires |udp| >= 2
  {
    (if |d| > 0 then d[0] else udp[0]) == '>' as int && (if |d| > 1 then d[1] else udp[1]) as int == k
  }

  /** Any datagram, from whatever source: one without '>' in front or with another number than the one due is refused.  It
      makes the receiver start over, or wait on, and changes neither the frame nor the pixels nor the counter. */
  lemma {:induction false} Refused(ly: Layout, rx: Rx, d: seq<byte>)
    requires |rx.udp| == CHUNK + 2 && (rx.mode.Sync? || rx.mode.Expect?)
    requires !Headed(rx.udp, d, if rx.mode.Expect? then rx.mode.k else 0)
    ensures var r := Step(ly, rx, d);
            && r == rx.(mode := r.mode, udp := r.udp) && |r.udp| == |rx.udp|
            && r.mode == if rx.mode.Expect? then Sync(0) else if rx.mode.waited >= 299 then Stopped else Sync(rx.mode.waited + 1)
  {
    HeaderReceived(ly, rx.udp, d);
  }

  /** The datagram due, from whatever source: its bytes go to the place of chunk k, and what a short one lacks is taken from the
      datagram before; the last chunk publishes the frame buffer and copies the pixels behind the metadata. */
  lemma {:induction false} Taken(ly: Layout, rx: Rx, d: seq<byte>, k: nat, i: nat)
    requires ly.Valid() && |rx.udp| == CHUNK + 2 && |rx.buff| == ly.len && k < ly.len / 63488 + 1 && i < ly.len
    requires if rx.mode.Sync? then rx.mode.waited < 299 && k == 0 else rx.mode == Expect(k)
    requires Headed(rx.udp, d, k)
    ensures var r := Step(ly, rx, d);
            && |r.buff| == ly.len
            && r.buff[i] == (if k * 63488 <= i < (k + 1) * 63488
                             then (if i - k * 63488 + 2 < |d| then d[i - k * 63488 + 2] else rx.udp[i - k * 63488 + 2]) else rx.buff[i])
            && if k == ly.len / 63488 then
                 r == rx.(mode := Expect(0), udp := r.udp, buff := r.buff, dest := r.buff[ly.metadata..ly.metadata + ly.framesize],
                          cnt0 := rx.cnt0 + 1, published := rx.published + [r.buff])
               else r == rx.(mode := Expect(k + 1), udp := r.udp, buff := r.buff)
  {
    HeaderReceived(ly, rx.udp, d);
    var rx1 := rx.(udp := Received(ly, rx.udp, d));
    assert Step(ly, rx, d) == Accept(ly, rx1, k);
    StoredByte(ly, rx.buff, rx1.udp, k, i);
    if k * CHUNK <= i < (k + 1) * CHUNK { ReceivedByte(ly, rx.udp, d, k, i - k * CHUNK + 2); }
  }

  lemma {:induction false} ReceivedByte(ly: Layout, udp: seq<byte>, d: seq<byte>, k: nat, q: nat)
    requires |udp| == CHUNK + 2 && k < NDatagrams(ly.len) && q < ChunkSize(ly.len, k) + 2
    ensures q < |udp| == |Received(ly, udp, d)| && Received(ly, udp, d)[q] == if q < |d| then d[q] else udp[q]
  {
    ChunkBounds(ly.len, k);
    assert q < ly.FirstBytes() <= |udp|;
  }

  lemma {:induction false} StoredByte(ly: Layout, buff: seq<byte>, udp: seq<byte>, k: nat, i: nat)
    requires |udp| == CHUNK + 2 && |buff| == ly.len && k < NDatagrams(ly.len) && i < ly.len
    ensures |Stored(ly, buff, udp, k)| == ly.len
    ensures Stored(ly, buff, udp, k)[i] == if k * CHUNK <= i < (k + 1) * CHUNK then udp[i - k * CHUNK + 2] else buff[i]
    ensures k * CHUNK <= i < (k + 1) * CHUNK ==> i - k * CHUNK + 2 < ChunkSize(ly.len, k) + 2
  {
    ChunkBounds(ly.len, k);
  }

  lemma {:induction false} HeaderReceived(ly: Layout, udp: seq<byte>, d: seq<byte>)
    requires |udp| == CHUNK + 2
    ensures var r := Received(ly, udp, d);
            |r| == |udp| && r[0] == (if |d| > 0 then d[0] else udp[0]) && r[1] == (if |d| > 1 then d[1] else udp[1])
  {
    assert 2 <= ly.FirstBytes() <= CHUNK + 2;
  }

  // ----- the receive loop

  class Receiver {
    const ly: Layout
    const buff: array<byte>
    const buffUdp: array<byte>
    const dest: array<byte>
    var cnt0: nat
    var abortFrame: bool
    ghost var published: seq<seq<byte>>
    ghost const step: (Rx, seq<byte>) -> Rx

    ghost predicate Valid()
      reads this
    {
      && Steps(step, ly) && ly.Valid() && buff.Length == ly.len && buffUdp.Length == CHUNK + 2 && dest.Length == ly.framesize
      && buff != buffUdp && buff != dest && buffUdp != dest
    }

    ghost function At(mode: Mode): Rx
      reads this, buff, buffUdp, dest
    {
      Rx(mode, buffUdp[..], buff[..], dest[..], cnt0, published)
    }

    ghost function Head(): Mode
      reads this
    {
      if abortFrame then Sync(0) else Expect(0)
    }

    constructor (layout: Layout)
      requires layout.Valid()
      ensures Valid() && fresh(buff) && fresh(buffUdp) && fresh(dest) && ly == layout
      ensures cnt0 == 0 && published == [] && Head() == Sync(0)
    {
      ly := layout;
      buff := new byte[layout.len];
      buffUdp := new byte[CHUNK + 2];
      dest := new byte[layout.framesize];
      cnt0, abortFrame, published := 0, true, [];
      step := (rx, d) => Step(layout, rx, d);
    }

    /** One call of recvfrom that returns datagram d. */
    method Recv(d: seq<byte>)
      requires Valid()
      modifies buffUdp
      ensures buffUdp[..] == Received(ly, old(buffUdp[..]), d)
    {
      var n := if |d| <= ly.FirstBytes() then |d| else ly.FirstBytes();
      ghost var before := buffUdp[..];
      for i := 0 to n
        invariant forall j :: 0 <= j < i ==> buffUdp[j] == d[j]
        invariant forall j :: i <= j < buffUdp.Length ==> buffUdp[j] == before[j]
      {
        buffUdp[i] := d[i];
      }
    }

    /** Copies the payload of the datagram buffer to the place of chunk k. */
    method CopyChunk(k: nat, size: nat)
      requires Valid() && k < NDatagrams(ly.len) && size == ChunkSize(ly.len, k)
      modifies buff
      ensures buff[..] == Stored(ly, old(buff[..]), buffUdp[..], k)
    {
      ChunkBounds(ly.len, k);
      ghost var before := buff[..];
      for i := 0 to size
        invariant forall j :: k * CHUNK <= j < k * CHUNK + i ==> buff[j] == buffUdp[j - k * CHUNK + 2]
        invariant forall j :: 0 <= j < buff.Length && !(k * CHUNK <= j < k * CHUNK + i) ==> buff[j] == before[j]
      {
        buff[k * CHUNK + i] := buffUdp[2 + i];
      }
      assert buff[..] == Stored(ly, before, buffUdp[..], k);
    }

    /** Copies the pixels out and counts the frame. */
    method Publish()
      requires Valid()
      modifies dest, this`cnt0, this`published
      ensures dest[..] == buff[ly.metadata..ly.metadata + ly.framesize]
      ensures cnt0 == old(cnt0) + 1 && published == old(published) + [buff[..]]
    {
      for i := 0 to ly.framesize
        modifies dest
        invariant forall j :: 0 <= j < i ==> dest[j] == buff[ly.metadata + j]
      {
        dest[i] := buff[ly.metadata + i];
      }
      cnt0 := cnt0 + 1;
      published := published + [buff[..]];
    }

    /** One datagram while waiting for a first one. */
    method LookAt(d: seq<byte>, wait: nat) returns (found: bool)
      requires Valid() && wait < MAX_DATAGRAM_WAIT
      modifies buffUdp
      ensures found ==> IsNumber(buffUdp[..], 0) && Step(ly, old(At(Sync(wait))), d) == Accept(ly, At(Expect(0)), 0)
      ensures !found ==> step(old(At(Sync(wait))), d) == At(if wait == MAX_DATAGRAM_WAIT - 1 then Stopped else Sync(wait + 1))
    {
      assert step(At(Sync(wait)), d) == Step(ly, At(Sync(wait)), d);
      Recv(d);
      if wait == MAX_DATAGRAM_WAIT - 1 {
        found := false;
      } else {
        found := buffUdp[0] == MAGIC && buffUdp[1] == 0;
      }
    }

    /** The wait for a first datagram.  Datagrams purged beforehand are not in the inbox. */
    method Resync(inbox: seq<seq<byte>>, start: nat, ghost rx0: Rx) returns (pos: nat, found: bool, ghost mode: Mode)
      requires Valid() && start <= |inbox|
      requires Run(step, rx0, inbox, start) == At(Sync(0))
      modifies buffUdp
      ensures start <= pos <= |inbox|
      ensures found ==> pos > start && Run(step, rx0, inbox, pos) == Accept(ly, At(Expect(0)), 0)
      ensures !found ==> Run(step, rx0, inbox, pos) == At(mode) && (pos < |inbox| ==> mode == Stopped)
    {
      pos, found, mode := start, false, Sync(0);
      var wait := 0;
      while wait < MAX_DATAGRAM_WAIT
        invariant start <= pos <= |inbox| && wait <= MAX_DATAGRAM_WAIT
        invariant mode == if wait == MAX_DATAGRAM_WAIT then Stopped else Sync(wait)
        invariant !found && Run(step, rx0, inbox, pos) == At(mode)
      {
        if pos == |inbox| { return; }
        found := LookAt(inbox[pos], wait);
        pos := pos + 1;
        if found { return; }
        wait := wait + 1;
        mode := if wait == MAX_DATAGRAM_WAIT then Stopped else Sync(wait);
      }
    }

    /** The state once the frame in the buffer has been published. */
    ghost function Completed(): Rx
      requires Valid()
      reads this, buff, buffUdp, dest
    {
      Rx(Expect(0), buffUdp[..], buff[..], buff[ly.metadata..ly.metadata + ly.framesize], cnt0 + 1, published + [buff[..]])
    }

    /** The state once chunks 0..k are in the frame buffer. */
    ghost function Filled(k: nat): Rx
      requires Valid()
      reads this, buff, buffUdp, dest
    {
      if k == NDatagrams(ly.len) - 1 then Completed() else At(Expect(k + 1))
    }

    /** The datagram buffer holds datagram k: its payload is copied. */
    method CopyAccepted(k: nat)
      requires Valid() && k < NDatagrams(ly.len)
      modifies buff
      ensures Filled(k) == Accept(ly, old(At(Expect(k))), k)
    {
      var n := ly.len / CHUNK + 1;
      var last := ly.len % CHUNK;
      CopyChunk(k, if k == n - 1 then last else CHUNK);
    }

    /** The next datagram of a frame that has chunks 0..k-1. */
    method ReceiveChunk(d: seq<byte>, k: nat)
      requires Valid() && k < NDatagrams(ly.len) && !abortFrame
      modifies this`abortFrame, buff, buffUdp
      ensures step(old(At(Expect(k))), d) == if abortFrame then At(Sync(0)) else Filled(k)
    {
      assert step(At(Expect(k)), d) == Step(ly, At(Expect(k)), d);
      Recv(d);
      if buffUdp[0] != MAGIC || buffUdp[1] as int != k {
        abortFrame := true;
      } else {
        CopyAccepted(k);
      }
    }

    /** The datagram that should begin a frame. */
    method ReceiveFirst(d: seq<byte>)
      requires Valid() && !abortFrame
      modifies this`abortFrame, buffUdp
      ensures step(old(At(Expect(0))), d) == if abortFrame then At(Sync(0)) else Accept(ly, At(Expect(0)), 0)
    {
      assert step(At(Expect(0)), d) == Step(ly, At(Expect(0)), d);
      Recv(d);
      if !(buffUdp[0] == MAGIC && buffUdp[1] == 0) {
        abortFrame := true;
      }
    }

    /** The rest of a frame after its first datagram: complete, broken off, or out of data. */
    method Assemble(inbox: seq<seq<byte>>, start: nat, ghost rx0: Rx) returns (pos: nat, more: bool, ghost mode: Mode)
      requires Valid() && !abortFrame && start <= |inbox|
      requires Run(step, rx0, inbox, start) == Accept(ly, At(Expect(0)), 0)
      modifies this`abortFrame, buff, buffUdp
      ensures start <= pos <= |inbox|
      ensures more && abortFrame ==> Run(step, rx0, inbox, pos) == At(Sync(0))
      ensures more && !abortFrame ==> Run(step, rx0, inbox, pos) == Completed()
      ensures !more ==> pos == |inbox| && Run(step, rx0, inbox, pos) == At(mode)
    {
      pos, more, mode := start, true, Expect(0);
      var n := ly.len / CHUNK + 1;
      CopyAccepted(0);
      var kDgram := 1;
      while kDgram < n && !abortFrame
        invariant start <= pos <= |inbox| && 1 <= kDgram <= n && more
        invariant Run(step, rx0, inbox, pos) == if abortFrame then At(Sync(0)) else Filled(kDgram - 1)
        decreases n - kDgram, !abortFrame
      {
        mode := Expect(kDgram);
        if pos == |inbox| {
          more := false;
          return;
        }
        ReceiveChunk(inbox[pos], kDgram);
        pos := pos + 1;
        if !abortFrame { kDgram := kDgram + 1; }
      }
    }

    /** The receive loop, run until the inbox is empty or the receiver stops. */
    method Receive(inbox: seq<seq<byte>>) returns (ghost mode: Mode, pos: nat)
      requires Valid()
      modifies this, buff, buffUdp, dest
      ensures Valid() && pos <= |inbox| && (pos < |inbox| ==> mode == Stopped)
      ensures Run(step, old(At(Head())), inbox, pos) == At(mode)
    {
      ghost var rx0 := At(Head());
      pos, mode := 0, Head();
      while true
        invariant Valid() && pos <= |inbox|
        invariant Run(step, rx0, inbox, pos) == At(Head())
        decreases |inbox| - pos
      {
        if abortFrame {
          var found;
          pos, found, mode := Resync(inbox, pos, rx0);
          if !found { return; }
          abortFrame := false;
        } else {
          mode := Expect(0);
          if pos == |inbox| { return; }
          ReceiveFirst(inbox[pos]);
          pos := pos + 1;
          if abortFrame { continue; }
        }
        var more;
        pos, more, mode := Assemble(inbox, pos, rx0);
        if !more { return; }
        if !abortFrame { Publish(); }
      }
    }
  }
}
