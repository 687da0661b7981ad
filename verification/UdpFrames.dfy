/** Which of the published frames were sent. */
module UdpFrames {
  import opened Bytes
  import opened Index
  import opened UdpSender
  import opened UdpReceiver
  import opened UdpChannel

  // ----- completed assemblies, chunk by chunk

  lemma {:induction false} ChunksAgree(a: seq<byte>, b: seq<byte>)
    requires |a| == |b| && forall k :: 0 <= k < NDatagrams(|a|) ==> Chunk(a, k) == Chunk(b, k)
    ensures a == b
  {
    forall i | 0 <= i < |a| ensures a[i] == b[i] {
      var k := i / CHUNK;
      ChunkBounds(|a|, k);
      assert Chunk(a, k)[i - k * CHUNK] == a[i] && Chunk(b, k)[i - k * CHUNK] == b[i];
    }
  }

  /** Deliveries s, s + 1, ... are numbered 0, 1, ..., m - 1. */
  ghost predicate Row(ds: seq<Delivery>, s: nat, m: nat) {
    s + m <= |ds| && forall i :: s <= i < s + m ==> ds[i].number == i - s
  }

  lemma {:induction false} SliceOfHead(a: seq<byte>, b: seq<byte>, i: nat, j: nat)
    requires i <= j <= |a|
    ensures (a + b)[i..j] == a[i..j]
  {
  }

  lemma {:induction false} SliceOfTail(a: seq<byte>, b: seq<byte>)
    ensures (a + b)[|a|..|a| + |b|] == b
  {
  }

  /** The joined payloads of a row, so far. */
  lemma {:induction false} JoinedLength(ly: Layout, frames: seq<seq<byte>>, ds: seq<Delivery>, s: nat, m: nat) returns (x: seq<byte>)
    requires Channel(ly, frames, ds) && Row(ds, s, m)
    ensures x == Joined(ly, frames, ds, s, s + m) && m <= NDatagrams(ly.len)
    ensures |x| == if m == 0 then 0 else ChunkEnd(ly.len, m - 1)
  {
    x := [];
    if m > 0 {
      x := JoinedLength(ly, frames, ds, s, m - 1);
      assert ds[s + m - 1].number == m - 1;
      JoinedMore(ly, frames, ds, s + m - 1, m - 1, x);
      if m > 1 { ChunkBounds(ly.len, m - 2); }
      x := x + Chunk(frames[ds[s + m - 1].frame], m - 1);
    }
  }

  /** The joined payloads x of a row hold chunk k of the frame that the k-th of them is from. */
  lemma {:induction false} JoinedChunks(ly: Layout, frames: seq<seq<byte>>, ds: seq<Delivery>, s: nat, m: nat, k: nat, x: seq<byte>)
    requires Channel(ly, frames, ds) && Row(ds, s, m) && k < m && x == Joined(ly, frames, ds, s, s + m)
    ensures k < NDatagrams(ly.len) && 0 <= k * CHUNK <= ChunkEnd(ly.len, k) <= |x|
    ensures x[k * CHUNK..ChunkEnd(ly.len, k)] == Chunk(frames[ds[s + k].frame], k)
  {
    assert ds[s + m - 1].number == m - 1;
    var before := JoinedLength(ly, frames, ds, s, m - 1);
    JoinedMore(ly, frames, ds, s + m - 1, m - 1, before);
    var chunk := Chunk(frames[ds[s + m - 1].frame], m - 1);
    assert x == before + chunk;
    if k < m - 1 {
      JoinedChunks(ly, frames, ds, s, m - 1, k, before);
      SliceOfHead(before, chunk, k * CHUNK, ChunkEnd(ly.len, k));
    } else {
      LastChunkAt(ly, m - 1, |before|);
      SliceOfTail(before, chunk);
    }
  }

  lemma {:induction false} LastChunkAt(ly: Layout, k: nat, at: nat)
    requires k < NDatagrams(ly.len) && at == if k == 0 then 0 else ChunkEnd(ly.len, k - 1)
    ensures at == k * CHUNK && at + ChunkSize(ly.len, k) == ChunkEnd(ly.len, k)
  {
    if k > 0 { ChunkBounds(ly.len, k - 1); }
  }

  /** x holds the bytes of delivery i in their place. */
  ghost predicate Carries(ly: Layout, frames: seq<seq<byte>>, ds: seq<Delivery>, x: seq<byte>, i: nat)
    requires Channel(ly, frames, ds) && i < |ds|
  {
    |x| == ly.len && Chunk(x, ds[i].number) == Chunk(frames[ds[i].frame], ds[i].number)
  }

  /** A completed assembly x is a mixture: each chunk is that of the frame its datagram is from. */
  lemma {:induction false} AssemblyIsMixture(ly: Layout, frames: seq<seq<byte>>, ds: seq<Delivery>, e: nat) returns (s: nat, x: seq<byte>)
    requires Channel(ly, frames, ds) && 0 < e <= |ds| && Ends(NDatagrams(ly.len), ds, e)
    ensures s == Begin(NDatagrams(ly.len), e) == e - NDatagrams(ly.len) && Row(ds, s, NDatagrams(ly.len))
    ensures x == Joined(ly, frames, ds, s, e) && |x| == ly.len
    ensures forall i :: s <= i < e ==> Carries(ly, frames, ds, x, i)
  {
    var n := NDatagrams(ly.len);
    EndsRow(n, ds, e);
    s := e - n;
    x := Joined(ly, frames, ds, s, e);
    forall i | s <= i < e ensures Carries(ly, frames, ds, x, i) { MixtureAt(ly, frames, ds, e, x, i); }
    assert Carries(ly, frames, ds, x, s);
  }

  lemma {:induction false} MixtureAt(ly: Layout, frames: seq<seq<byte>>, ds: seq<Delivery>, e: nat, x: seq<byte>, i: nat)
    requires Channel(ly, frames, ds) && NDatagrams(ly.len) <= e <= |ds| && e - NDatagrams(ly.len) <= i < e
    requires Row(ds, e - NDatagrams(ly.len), NDatagrams(ly.len)) && x == Joined(ly, frames, ds, e - NDatagrams(ly.len), e)
    ensures Carries(ly, frames, ds, x, i)
  {
    var n := NDatagrams(ly.len);
    ChunkBounds(ly.len, n - 1);
    var y := JoinedLength(ly, frames, ds, e - n, n);
    JoinedChunks(ly, frames, ds, e - n, n, i - (e - n), x);
  }

  // ----- when a completed assembly is a frame

  /** Of two datagrams with consecutive numbers fewer than n are lost between if and only if they are of one frame. */
  lemma {:induction false} SameFrame(n: nat, a: Delivery, b: Delivery)
    requires Before(a, b) && b.number == a.number + 1 && n > 0
    ensures Lost(n, a, b) < n <==> a.frame == b.frame
  {
    if a.frame < b.frame { RowsApart(a.frame, b.frame, n); }
  }

  /** As many datagrams as a frame has are lost before delivery i, which has bytes of the frame in it.  The last
      datagram of a frame may have none. */
  predicate Tears(ly: Layout, ds: seq<Delivery>, i: nat)
    requires 0 < i < |ds|
  {
    ChunkSize(ly.len, ds[i].number) > 0 && Lost(NDatagrams(ly.len), ds[i - 1], ds[i]) >= NDatagrams(ly.len)
  }

  /** No delivery tears the assembly that ends with delivery e - 1. */
  ghost predicate Whole(ly: Layout, ds: seq<Delivery>, e: nat)
    requires e <= |ds|
  {
    forall i :: Begin(NDatagrams(ly.len), e) < i < e ==> !Tears(ly, ds, i)
  }

  /** Between the datagrams of each completed assembly fewer than n were lost. */
  ghost predicate NoTear(ly: Layout, ds: seq<Delivery>, j: nat)
    requires j <= |ds|
  {
    forall e :: 0 < e <= j && Ends(NDatagrams(ly.len), ds, e) ==> Whole(ly, ds, e)
  }

  /** In a whole assembly every datagram with bytes in it is from the frame of the first. */
  lemma {:induction false} WholeFrames(ly: Layout, frames: seq<seq<byte>>, ds: seq<Delivery>, e: nat, i: nat)
    requires Channel(ly, frames, ds) && NDatagrams(ly.len) <= e <= |ds| && Whole(ly, ds, e)
    requires Row(ds, e - NDatagrams(ly.len), NDatagrams(ly.len)) && e - NDatagrams(ly.len) <= i < e
    requires ChunkSize(ly.len, ds[i].number) > 0
    ensures ds[i].frame == ds[e - NDatagrams(ly.len)].frame
  {
    var n := NDatagrams(ly.len);
    if i > e - n {
      assert ds[i - 1].number == i - 1 - (e - n);
      WholeFrames(ly, frames, ds, e, i - 1);
      assert !Tears(ly, ds, i) && InOrder(ds, i);
      SameFrame(n, ds[i - 1], ds[i]);
    }
  }

  lemma {:induction false} WholeIsSent(ly: Layout, frames: seq<seq<byte>>, ds: seq<Delivery>, e: nat)
    requires Channel(ly, frames, ds) && 0 < e <= |ds| && Ends(NDatagrams(ly.len), ds, e) && Whole(ly, ds, e)
    ensures var n := NDatagrams(ly.len); n <= e && Joined(ly, frames, ds, e - n, e) == frames[ds[e - n].frame]
  {
    var s, a := AssemblyIsMixture(ly, frames, ds, e);
    var b := frames[ds[s].frame];
    forall k | 0 <= k < NDatagrams(ly.len) ensures Chunk(a, k) == Chunk(b, k) {
      assert Carries(ly, frames, ds, a, s + k) && ds[s + k].number == k;
      if ChunkSize(ly.len, k) > 0 { WholeFrames(ly, frames, ds, e, s + k); }
    }
    ChunksAgree(a, b);
  }

  /** The frames differ in every chunk that has bytes in it. */
  ghost predicate Differ(a: seq<byte>, b: seq<byte>) {
    |a| == |b| && forall k :: 0 <= k < NDatagrams(|a|) && ChunkSize(|a|, k) > 0 ==> Chunk(a, k) != Chunk(b, k)
  }

  ghost predicate AllDiffer(frames: seq<seq<byte>>) {
    forall f, g :: 0 <= f < g < |frames| ==> Differ(frames[f], frames[g])
  }

  lemma {:induction false} ChunksDiffer(frames: seq<seq<byte>>, f: nat, g: nat, k: nat)
    requires AllDiffer(frames) && f < g < |frames| && k < NDatagrams(|frames[f]|) && ChunkSize(|frames[f]|, k) > 0
    ensures |frames[f]| == |frames[g]| && Chunk(frames[f], k) != Chunk(frames[g], k)
  {
    assert Differ(frames[f], frames[g]);
  }

  lemma {:induction false} SameChunkSameFrame(frames: seq<seq<byte>>, f: nat, g: nat, k: nat)
    requires AllDiffer(frames) && f < |frames| && g < |frames| && |frames[f]| == |frames[g]| && k < NDatagrams(|frames[f]|)
    requires ChunkSize(|frames[f]|, k) > 0 && Chunk(frames[f], k) == Chunk(frames[g], k)
    ensures f == g
  {
    if f < g {
      ChunksDiffer(frames, f, g, k);
    } else if g < f {
      ChunksDiffer(frames, g, f, k);
    }
  }

  lemma {:induction false} SentIsWhole(ly: Layout, frames: seq<seq<byte>>, ds: seq<Delivery>, e: nat, g: nat)
    requires Channel(ly, frames, ds) && 0 < e <= |ds| && Ends(NDatagrams(ly.len), ds, e) && AllDiffer(frames) && g < |frames|
    requires Joined(ly, frames, ds, Begin(NDatagrams(ly.len), e), e) == frames[g]
    ensures Whole(ly, ds, e)
  {
    var s, x := AssemblyIsMixture(ly, frames, ds, e);
    forall i | s < i < e ensures !Tears(ly, ds, i) {
      assert Carries(ly, frames, ds, x, i) && Carries(ly, frames, ds, x, i - 1);
      assert ds[i - 1].number == i - 1 - s;
      SentNotTorn(ly, frames, ds, g, i);
    }
  }

  /** Two deliveries of the same frame. */
  lemma {:induction false} SentNotTorn(ly: Layout, frames: seq<seq<byte>>, ds: seq<Delivery>, g: nat, i: nat)
    requires Channel(ly, frames, ds) && 0 < i < |ds| && AllDiffer(frames) && g < |frames| && ds[i].number == ds[i - 1].number + 1
    requires Carries(ly, frames, ds, frames[g], i) && Carries(ly, frames, ds, frames[g], i - 1)
    ensures !Tears(ly, ds, i)
  {
    if ChunkSize(ly.len, ds[i].number) > 0 {
      SameChunkSameFrame(frames, ds[i].frame, g, ds[i].number);
      SameChunkSameFrame(frames, ds[i - 1].frame, g, ds[i - 1].number);
      assert InOrder(ds, i);
      SameFrame(NDatagrams(ly.len), ds[i - 1], ds[i]);
    }
  }

  /** A completed assembly is a frame that was sent if and only if nothing tears it. */
  lemma {:induction false} AssemblySent(ly: Layout, frames: seq<seq<byte>>, ds: seq<Delivery>, e: nat)
    requires Channel(ly, frames, ds) && 0 < e <= |ds| && Ends(NDatagrams(ly.len), ds, e) && AllDiffer(frames)
    ensures Joined(ly, frames, ds, Begin(NDatagrams(ly.len), e), e) in frames <==> Whole(ly, ds, e)
  {
    var x := Joined(ly, frames, ds, Begin(NDatagrams(ly.len), e), e);
    if Whole(ly, ds, e) {
      WholeIsSent(ly, frames, ds, e);
    } else if x in frames {
      var g :| 0 <= g < |frames| && frames[g] == x;
      SentIsWhole(ly, frames, ds, e, g);
    }
  }

  // ----- the published frames

  lemma {:induction false} PublishedAre(ly: Layout, frames: seq<seq<byte>>, ds: seq<Delivery>, rx0: Rx, j: nat)
    requires Channel(ly, frames, ds) && NDatagrams(ly.len) <= 128 && j <= |ds|
    requires Sized(ly, rx0) && rx0.mode == Sync(0) && rx0.published == []
    ensures var rx := After(ly, frames, ds, rx0, j);
            && rx.published == Assemblies(ly, frames, ds, j) && Reflects(ly, rx0, rx)
            && rx.mode == ModeAt(NDatagrams(ly.len), ds, j)
  {
    PublishedExactly(ly, frames, ds, rx0, j);
  }

  lemma {:induction false} AfterPublished(ly: Layout, frames: seq<seq<byte>>, ds: seq<Delivery>, rx0: Rx, j: nat)
    requires Channel(ly, frames, ds) && NDatagrams(ly.len) <= 128 && j <= |ds|
    requires Sized(ly, rx0) && rx0.mode == Sync(0) && rx0.published == []
    ensures After(ly, frames, ds, rx0, j).published == Assemblies(ly, frames, ds, j)
  {
    PublishedAre(ly, frames, ds, rx0, j);
  }

  ghost predicate AllSent(frames: seq<seq<byte>>, published: seq<seq<byte>>) {
    forall i :: 0 <= i < |published| ==> published[i] in frames
  }

  lemma {:induction false} AllSentMore(frames: seq<seq<byte>>, published: seq<seq<byte>>, x: seq<byte>)
    ensures AllSent(frames, published + [x]) <==> AllSent(frames, published) && x in frames
  {
    var all := published + [x];
    assert all[|published|] == x && forall i :: 0 <= i < |published| ==> all[i] == published[i];
  }

  lemma {:induction false} AssembliesNext(ly: Layout, frames: seq<seq<byte>>, ds: seq<Delivery>, j: nat)
    requires Channel(ly, frames, ds) && 0 < j <= |ds|
    ensures var n, before := NDatagrams(ly.len), Assemblies(ly, frames, ds, j - 1);
            Assemblies(ly, frames, ds, j) == if Ends(n, ds, j) then before + [Joined(ly, frames, ds, Begin(n, j), j)] else before
  {
  }

  lemma {:induction false} AssembliesSent(ly: Layout, frames: seq<seq<byte>>, ds: seq<Delivery>, j: nat)
    requires Channel(ly, frames, ds) && j <= |ds| && AllDiffer(frames)
    ensures AllSent(frames, Assemblies(ly, frames, ds, j)) <==> NoTear(ly, ds, j)
  {
    if j > 0 {
      var n, before := NDatagrams(ly.len), Assemblies(ly, frames, ds, j - 1);
      AssembliesSent(ly, frames, ds, j - 1);
      NoTearNext(ly, ds, j);
      if Ends(n, ds, j) {
        AssemblySent(ly, frames, ds, j);
        AllSentMore(frames, before, Joined(ly, frames, ds, Begin(n, j), j));
      }
      AssembliesNext(ly, frames, ds, j);
    }
  }

  lemma {:induction false} NoTearNext(ly: Layout, ds: seq<Delivery>, j: nat)
    requires 0 < j <= |ds|
    ensures NoTear(ly, ds, j) <==> NoTear(ly, ds, j - 1) && (Ends(NDatagrams(ly.len), ds, j) ==> Whole(ly, ds, j))
  {
  }

  /** Main result: of frames that differ in every chunk, every published one was sent if and only if in each
      completed assembly fewer datagrams were lost between two of its datagrams than a frame has. */
  lemma {:induction false} SentExactly(ly: Layout, frames: seq<seq<byte>>, ds: seq<Delivery>, rx0: Rx, j: nat)
    requires Channel(ly, frames, ds) && NDatagrams(ly.len) <= 128 && j <= |ds| && AllDiffer(frames)
    requires Sized(ly, rx0) && rx0.mode == Sync(0) && rx0.published == []
    ensures AllSent(frames, After(ly, frames, ds, rx0, j).published) <==> NoTear(ly, ds, j)
  {
    PublishedAre(ly, frames, ds, rx0, j);
    AssembliesSent(ly, frames, ds, j);
  }

  /** The frames numbered gs, in sending order. */
  ghost predicate Published(frames: seq<seq<byte>>, gs: seq<nat>, published: seq<seq<byte>>) {
    && |gs| == |published|
    && (forall i :: 0 <= i < |gs| ==> gs[i] < |frames| && published[i] == frames[gs[i]])
    && (forall i, k :: 0 <= i < k < |gs| ==> gs[i] < gs[k])
  }

  lemma {:induction false} DeliveryOrder(ly: Layout, frames: seq<seq<byte>>, ds: seq<Delivery>, i: nat, k: nat)
    requires Channel(ly, frames, ds) && i < k < |ds|
    ensures Before(ds[i], ds[k])
  {
    assert InOrder(ds, k);
    if i < k - 1 { DeliveryOrder(ly, frames, ds, i, k - 1); }
  }

  /** Completed assemblies do not overlap. */
  lemma {:induction false} AssembliesApart(ly: Layout, frames: seq<seq<byte>>, ds: seq<Delivery>, d: nat, e: nat)
    requires Channel(ly, frames, ds) && 0 < d < e <= |ds| && Ends(NDatagrams(ly.len), ds, d) && Ends(NDatagrams(ly.len), ds, e)
    ensures var n := NDatagrams(ly.len); n <= d <= e - n && ds[d - n].frame < ds[e - n].frame
  {
    var n := NDatagrams(ly.len);
    EndsRow(n, ds, d);
    EndsRow(n, ds, e);
    assert ds[d - 1].number == n - 1;
    assert ds[d - n].number == 0 && ds[e - n].number == 0;
    DeliveryOrder(ly, frames, ds, d - n, e - n);
  }

  /** All published frames are from assemblies completed by the first j deliveries; the last of them at e. */
  lemma {:induction false} WholeAssemblies(ly: Layout, frames: seq<seq<byte>>, ds: seq<Delivery>, j: nat) returns (gs: seq<nat>, e: nat)
    requires Channel(ly, frames, ds) && j <= |ds| && NoTear(ly, ds, j)
    ensures Published(frames, gs, Assemblies(ly, frames, ds, j))
    ensures |gs| > 0 ==> var n := NDatagrams(ly.len); 0 < e <= j && n <= e && Ends(n, ds, e) && gs[|gs| - 1] == ds[e - n].frame
  {
    if j == 0 {
      gs, e := [], 0;
    } else {
      var n := NDatagrams(ly.len);
      NoTearNext(ly, ds, j);
      gs, e := WholeAssemblies(ly, frames, ds, j - 1);
      if Ends(n, ds, j) {
        WholeIsSent(ly, frames, ds, j);
        if |gs| > 0 { AssembliesApart(ly, frames, ds, e, j); }
        PublishedMore(frames, gs, Assemblies(ly, frames, ds, j - 1), ds[j - n].frame);
        gs, e := gs + [ds[j - n].frame], j;
      }
    }
  }

  lemma {:induction false} PublishedMore(frames: seq<seq<byte>>, gs: seq<nat>, published: seq<seq<byte>>, g: nat)
    requires Published(frames, gs, published) && g < |frames| && (|gs| > 0 ==> gs[|gs| - 1] < g)
    ensures Published(frames, gs + [g], published + [frames[g]])
  {
    assert forall i :: 0 <= i < |gs| ==> (gs + [g])[i] == gs[i] && (published + [frames[g]])[i] == published[i];
  }

  /** Main result: with at most 128 datagrams to a frame, and fewer than that number lost between any two of a
      completed assembly, every frame the receiver publishes is byte for byte a frame that was sent, in sending
      order and none twice; the pixels and the counter show exactly these frames. */
  lemma {:induction false} PublishedFramesWereSent(ly: Layout, frames: seq<seq<byte>>, ds: seq<Delivery>, rx0: Rx, j: nat) returns (gs: seq<nat>)
    requires Channel(ly, frames, ds) && NDatagrams(ly.len) <= 128 && j <= |ds| && NoTear(ly, ds, j)
    requires Sized(ly, rx0) && rx0.mode == Sync(0) && rx0.published == []
    ensures var rx := After(ly, frames, ds, rx0, j);
            Published(frames, gs, rx.published) && Reflects(ly, rx0, rx)
  {
    PublishedAre(ly, frames, ds, rx0, j);
    var e: nat;
    gs, e := WholeAssemblies(ly, frames, ds, j);
  }

  // ----- when frames get through

  /** Datagrams 0, 1, ..., n - 1 of which the first is accepted. */
  lemma {:induction false} RowMode(n: nat, ds: seq<Delivery>, s: nat, i: nat)
    requires 0 < i <= n && Row(ds, s, n) && Accepts(ModeAt(n, ds, s), 0)
    ensures ModeAt(n, ds, s + i) == if i == n then Expect(0) else Expect(i)
  {
    if i > 1 { RowMode(n, ds, s, i - 1); }
    assert ds[s + i - 1].number == i - 1;
  }

  lemma {:induction false} RowAssemblies(ly: Layout, frames: seq<seq<byte>>, ds: seq<Delivery>, s: nat, i: nat)
    requires Channel(ly, frames, ds) && i <= NDatagrams(ly.len)
    requires Row(ds, s, NDatagrams(ly.len)) && Accepts(ModeAt(NDatagrams(ly.len), ds, s), 0)
    ensures Assemblies(ly, frames, ds, s + i) ==
            Assemblies(ly, frames, ds, s) + if i == NDatagrams(ly.len) then [Joined(ly, frames, ds, s, s + i)] else []
    ensures i == NDatagrams(ly.len) ==> Ends(i, ds, s + i)
  {
    var n := NDatagrams(ly.len);
    if i > 0 {
      RowAssemblies(ly, frames, ds, s, i - 1);
      if i > 1 { RowMode(n, ds, s, i - 1); }
      assert ds[s + i - 1].number == i - 1;
    }
  }

  /** If its first datagram is refused, none of the others is accepted. */
  lemma {:induction false} RefusedMode(n: nat, ds: seq<Delivery>, s: nat, i: nat)
    requires 0 < i <= n && Row(ds, s, n) && !Accepts(ModeAt(n, ds, s), 0)
    ensures !ModeAt(n, ds, s + i).Expect?
  {
    if i > 1 { RefusedMode(n, ds, s, i - 1); }
    assert ds[s + i - 1].number == i - 1;
  }

  lemma {:induction false} RefusedAssemblies(ly: Layout, frames: seq<seq<byte>>, ds: seq<Delivery>, s: nat, i: nat)
    requires Channel(ly, frames, ds) && i <= NDatagrams(ly.len)
    requires Row(ds, s, NDatagrams(ly.len)) && !Accepts(ModeAt(NDatagrams(ly.len), ds, s), 0)
    ensures Assemblies(ly, frames, ds, s + i) == Assemblies(ly, frames, ds, s)
  {
    var n := NDatagrams(ly.len);
    if i > 0 {
      RefusedAssemblies(ly, frames, ds, s, i - 1);
      if i > 1 { RefusedMode(n, ds, s, i - 1); }
      assert ds[s + i - 1].number == i - 1;
      AssembliesNext(ly, frames, ds, s + i);
    }
  }

  /** A frame none of whose datagrams is lost is published if and only if its first datagram is accepted: not in the
      middle of another frame, nor when the receiver gives up. */
  lemma {:induction false} WholeFrameGetsThrough(ly: Layout, frames: seq<seq<byte>>, ds: seq<Delivery>, rx0: Rx, s: nat, f: nat)
    requires Channel(ly, frames, ds) && NDatagrams(ly.len) <= 128 && Row(ds, s, NDatagrams(ly.len))
    requires f < |frames| && forall i :: s <= i < s + NDatagrams(ly.len) ==> ds[i].frame == f
    requires Sized(ly, rx0) && rx0.mode == Sync(0) && rx0.published == []
    ensures After(ly, frames, ds, rx0, s + NDatagrams(ly.len)).published ==
            After(ly, frames, ds, rx0, s).published + if Accepts(ModeAt(NDatagrams(ly.len), ds, s), 0) then [frames[f]] else []
  {
    AfterPublished(ly, frames, ds, rx0, s);
    AfterPublished(ly, frames, ds, rx0, s + NDatagrams(ly.len));
    if Accepts(ModeAt(NDatagrams(ly.len), ds, s), 0) {
      WholeAssembly(ly, frames, ds, s, f);
    } else {
      RefusedAssemblies(ly, frames, ds, s, NDatagrams(ly.len));
    }
  }

  lemma {:induction false} WholeAssembly(ly: Layout, frames: seq<seq<byte>>, ds: seq<Delivery>, s: nat, f: nat)
    requires Channel(ly, frames, ds) && Row(ds, s, NDatagrams(ly.len)) && Accepts(ModeAt(NDatagrams(ly.len), ds, s), 0)
    requires f < |frames| && forall i :: s <= i < s + NDatagrams(ly.len) ==> ds[i].frame == f
    ensures Assemblies(ly, frames, ds, s + NDatagrams(ly.len)) == Assemblies(ly, frames, ds, s) + [frames[f]]
  {
    var n := NDatagrams(ly.len);
    RowAssemblies(ly, frames, ds, s, n);
    SplitAssembly(ly, frames, ds, s + n, 0, f, f);
    assert frames[f][..0] + frames[f][0..] == frames[f];
  }

  /** With more than 128 datagrams to a frame nothing is ever published, whatever arrives: the number
      of the last datagram cannot be read back from a char. */
  lemma {:induction false} LargeFramesNeverPublish(ly: Layout, rx: Rx, d: seq<byte>)
    requires NDatagrams(ly.len) > 128
    requires rx.mode.Expect? ==> rx.mode.k <= 128
    ensures Step(ly, rx, d).published == rx.published
    ensures Step(ly, rx, d).mode.Expect? ==> Step(ly, rx, d).mode.k <= 128
  {
  }

  /** So no run publishes such a frame. */
  lemma {:induction false} NothingPublished(ly: Layout, frames: seq<seq<byte>>, ds: seq<Delivery>, rx0: Rx, j: nat)
    requires Channel(ly, frames, ds) && NDatagrams(ly.len) > 128 && rx0.mode == Sync(0) && j <= |ds|
    ensures var rx := After(ly, frames, ds, rx0, j); rx.published == rx0.published && (rx.mode.Expect? ==> rx.mode.k <= 128)
  {
    if j > 0 {
      NothingPublished(ly, frames, ds, rx0, j - 1);
      AfterNext(ly, frames, ds, rx0, j - 1);
      LargeFramesNeverPublish(ly, After(ly, frames, ds, rx0, j - 1), Wire(ly, frames, ds[j - 1]));
    }
  }

  // ----- torn frames

  /** A completed assembly whose first k datagrams are of frame f and the others of frame g. */
  lemma {:induction false} SplitAssembly(ly: Layout, frames: seq<seq<byte>>, ds: seq<Delivery>, e: nat, k: nat, f: nat, g: nat)
    requires Channel(ly, frames, ds) && 0 < e <= |ds| && Ends(NDatagrams(ly.len), ds, e) && k < NDatagrams(ly.len) <= e
    requires f < |frames| && g < |frames|
    requires forall i :: e - NDatagrams(ly.len) <= i < e ==> ds[i].frame == if i < e - NDatagrams(ly.len) + k then f else g
    ensures 0 <= k * CHUNK <= ly.len
    ensures Joined(ly, frames, ds, e - NDatagrams(ly.len), e) == frames[f][..k * CHUNK] + frames[g][k * CHUNK..]
  {
    ChunkBounds(ly.len, k);
    var s, a := AssemblyIsMixture(ly, frames, ds, e);
    var b := frames[f][..k * CHUNK] + frames[g][k * CHUNK..];
    forall m | 0 <= m < NDatagrams(ly.len) ensures Chunk(a, m) == Chunk(b, m) {
      var i := s + m;
      assert Carries(ly, frames, ds, a, i) && ds[i].number == m && ds[i].frame == if m < k then f else g;
      SplitChunk(frames[f], frames[g], k, m);
    }
    ChunksAgree(a, b);
  }

  lemma {:induction false} SplitChunk(a: seq<byte>, b: seq<byte>, k: nat, i: nat)
    requires |a| == |b| && k < NDatagrams(|a|) && i < NDatagrams(|a|)
    ensures 0 <= k * CHUNK <= |a|
    ensures Chunk(a[..k * CHUNK] + b[k * CHUNK..], i) == Chunk(if i < k then a else b, i)
  {
    ChunkBounds(|a|, k);
    ChunkBounds(|a|, i);
    var c, from, to := k * CHUNK, i * CHUNK, ChunkEnd(|a|, i);
    if i < k {
      assert to <= c;
      SliceOfHead(a[..c], b[c..], from, to);
    } else {
      assert c <= from <= to;
      SliceBeyond(a, b, c, from, to);
    }
  }

  lemma {:induction false} SliceBeyond(a: seq<byte>, b: seq<byte>, c: nat, from: nat, to: nat)
    requires |a| == |b| && c <= from <= to <= |a|
    ensures (a[..c] + b[c..])[from..to] == b[from..to]
  {
  }

  /** The first k datagrams of frame 0, then the others of frame 1. */
  function TornDeliveries(n: nat, k: nat): seq<Delivery> {
    seq(n, i requires 0 <= i < n => Delivery(if i < k then 0 else 1, i))
  }

  lemma {:induction false} TornChannel(ly: Layout, a: seq<byte>, b: seq<byte>, k: nat)
    requires ly.Valid() && |a| == |b| == ly.len && 0 < k < NDatagrams(ly.len)
    ensures var n := NDatagrams(ly.len);
            var ds := TornDeliveries(n, k);
            Channel(ly, [a, b], ds) && Row(ds, 0, n) && Lost(n, ds[k - 1], ds[k]) == n
  {
    var n := NDatagrams(ly.len);
    var ds := TornDeliveries(n, k);
    assert forall j :: 0 < j < n ==> InOrder(ds, j);
  }

  /** The bound on losses is needed, for every number n of datagrams to a frame and every place k: if datagrams k
      and later of one frame and those before k of the next are lost, n in all, the head of the one and the tail of
      the other are published as one frame. */
  lemma {:induction false} TornFrame(ly: Layout, a: seq<byte>, b: seq<byte>, k: nat, rx0: Rx)
    requires ly.Valid() && |a| == |b| == ly.len && 0 < k < NDatagrams(ly.len) <= 128
    requires Sized(ly, rx0) && rx0.mode == Sync(0) && rx0.published == []
    ensures 0 <= k * CHUNK <= ly.len
    ensures var n := NDatagrams(ly.len);
            var ds := TornDeliveries(n, k);
            && Channel(ly, [a, b], ds) && Lost(n, ds[k - 1], ds[k]) == n
            && After(ly, [a, b], ds, rx0, n).published == [a[..k * CHUNK] + b[k * CHUNK..]]
  {
    var n := NDatagrams(ly.len);
    var ds := TornDeliveries(n, k);
    TornChannel(ly, a, b, k);
    PublishedAre(ly, [a, b], ds, rx0, n);
    RowAssemblies(ly, [a, b], ds, 0, n);
    SplitAssembly(ly, [a, b], ds, n, k, 0, 1);
  }
}
