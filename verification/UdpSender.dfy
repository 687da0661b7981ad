/** A frame cut into datagrams.  The sender keeps the frame in one buffer behind a two-byte gap and
    writes every header over the two bytes before the chunk, which belong to the chunk already sent. */
module UdpSender {
  import opened Bytes

  /** 62 KiB of payload at most. */
  const CHUNK: int := 63488
  const MAGIC: byte := 0x3E

  /** The number of datagrams for a frame of len bytes, and the payload of the last one. */
  function NDatagrams(len: nat): nat {
    len / CHUNK + 1
  }

  function LastChunk(len: nat): nat {
    len % CHUNK
  }

  /** Payload bytes of datagram k. */
  function ChunkSize(len: nat, k: nat): nat {
    if k == NDatagrams(len) - 1 then LastChunk(len) else CHUNK
  }

  function ChunkEnd(len: nat, k: nat): nat {
    k * CHUNK + ChunkSize(len, k)
  }

  lemma {:induction false} ChunkBounds(len: nat, k: nat)
    requires k < NDatagrams(len)
    ensures k * CHUNK <= ChunkEnd(len, k) <= len
    ensures ChunkEnd(len, k) == if k == NDatagrams(len) - 1 then len else (k + 1) * CHUNK
    ensures ChunkEnd(len, k) == if (k + 1) * CHUNK <= len then (k + 1) * CHUNK else len
  {
  }

  /** Datagram k of a frame: a header, then its stretch of the payload. */
  function Datagram(payload: seq<byte>, k: nat): seq<byte>
    requires k < NDatagrams(|payload|)
  {
    ChunkBounds(|payload|, k);
    [MAGIC, ToChar(k)] + payload[k * CHUNK..ChunkEnd(|payload|, k)]
  }

  function Datagrams(payload: seq<byte>, n: nat): seq<seq<byte>>
    requires n <= NDatagrams(|payload|)
  {
    if n == 0 then [] else Datagrams(payload, n - 1) + [Datagram(payload, n - 1)]
  }

  function TotalSize(dgrams: seq<seq<byte>>): nat {
    if |dgrams| == 0 then 0 else TotalSize(dgrams[..|dgrams| - 1]) + |dgrams[|dgrams| - 1]|
  }

  lemma {:induction false} DatagramsAt(payload: seq<byte>, n: nat)
    requires n <= NDatagrams(|payload|)
    ensures |Datagrams(payload, n)| == n
    ensures forall k :: 0 <= k < n ==> Datagrams(payload, n)[k] == Datagram(payload, k)
  {
    if n > 0 { DatagramsAt(payload, n - 1); }
  }

  /** The bytes handed to the network: the payload and two per datagram. */
  lemma {:induction false} SizesAdd(payload: seq<byte>, n: nat)
    requires n <= NDatagrams(|payload|)
    ensures TotalSize(Datagrams(payload, n)) == 2 * n + if n == NDatagrams(|payload|) then |payload| else n * CHUNK
  {
    if n > 0 {
      SizesAdd(payload, n - 1);
      DatagramsAt(payload, n);
      ChunkBounds(|payload|, n - 1);
      var ds := Datagrams(payload, n);
      assert ds[..n - 1] == Datagrams(payload, n - 1);
      assert TotalSize(ds) == TotalSize(ds[..n - 1]) + |ds[n - 1]|;
      assert |ds[n - 1]| == 2 + ChunkEnd(|payload|, n - 1) - (n - 1) * CHUNK;
    }
  }

  /** The bytes at the place of datagram k, once its header is written. */
  lemma {:induction false} HeaderedChunk(b: seq<byte>, payload: seq<byte>, k: nat)
    requires |b| == |payload| + 2 && k < NDatagrams(|payload|)
    requires 0 <= k * CHUNK && ChunkEnd(|payload|, k) + 2 <= |b|
    requires b[k * CHUNK] == MAGIC && b[k * CHUNK + 1] == ToChar(k)
    requires forall i :: k * CHUNK + 2 <= i < |b| ==> b[i] == payload[i - 2]
    ensures b[k * CHUNK..ChunkEnd(|payload|, k) + 2] == Datagram(payload, k)
  {
  }

  /** The send loop.  The buffer holds the payload from its third byte on. */
  method SendFrame(buff: array<byte>, len: nat) returns (dgrams: seq<seq<byte>>, byteCount: nat)
    requires buff.Length == len + 2
    modifies buff
    ensures dgrams == Datagrams(old(buff[2..]), NDatagrams(len))
    ensures byteCount == len + 2 * NDatagrams(len)
  {
    ghost var payload := buff[2..];
    var n := len / CHUNK + 1;
    var last := len % CHUNK;
    dgrams, byteCount := [], 0;
    var ptr := 0;
    for dgram := 0 to n
      invariant ptr == dgram * CHUNK
      invariant dgrams == Datagrams(payload, dgram)
      invariant byteCount == TotalSize(dgrams)
      // everything from the next chunk on is still payload
      invariant forall i :: ptr + 2 <= i < len + 2 ==> buff[i] == payload[i - 2]
    {
      ChunkBounds(len, dgram);
      var size := if dgram == n - 1 then last + 2 else CHUNK + 2;
      buff[ptr] := MAGIC;
      buff[ptr + 1] := ToChar(dgram);
      var sent := buff[ptr..ptr + size];
      HeaderedChunk(buff[..], payload, dgram);
      assert sent == buff[..][ptr..ptr + size];
      assert (dgrams + [sent])[..|dgrams|] == dgrams;
      dgrams := dgrams + [sent];
      byteCount := byteCount + |sent|;
      ptr := ptr + CHUNK;
    }
    SizesAdd(payload, n);
  }

  /** Main result: a frame of len bytes goes out in len / 63488 + 1 datagrams.  Number k is '>', the number as a char, and the bytes
      from 63488 k on, 63488 of them or what is left. */
  lemma {:induction false} DatagramSent(payload: seq<byte>, k: nat)
    requires k < |payload| / 63488 + 1
    ensures |Datagrams(payload, NDatagrams(|payload|))| == |payload| / 63488 + 1
    ensures var d := Datagrams(payload, NDatagrams(|payload|))[k];
            var to := if (k + 1) * 63488 <= |payload| then (k + 1) * 63488 else |payload|;
            d == ['>' as int, ToChar(k)] + payload[k * 63488..to]
  {
    DatagramsAt(payload, NDatagrams(|payload|));
    ChunkBounds(|payload|, k);
  }

  /** A header read back: the number is right for the first 128 datagrams and for no later one. */
  lemma {:induction false} NumberReadable(k: nat)
    ensures ToChar(k) as int == k <==> k < 128
  {
  }

  /** Putting the payloads of the first n datagrams one after the other. */
  function Assembled(payload: seq<byte>, n: nat): seq<byte>
    requires n <= NDatagrams(|payload|)
  {
    if n == 0 then [] else Assembled(payload, n - 1) + Datagram(payload, n - 1)[2..]
  }

  lemma {:induction false} AssembledPrefix(payload: seq<byte>, n: nat)
    requires n <= NDatagrams(|payload|)
    ensures Assembled(payload, n) == payload[..if n == NDatagrams(|payload|) then |payload| else n * CHUNK]
  {
    if n > 0 {
      AssembledPrefix(payload, n - 1);
      ChunkBounds(|payload|, n - 1);
      var d := Datagram(payload, n - 1);
      assert d[2..] == payload[(n - 1) * CHUNK..ChunkEnd(|payload|, n - 1)];
    }
  }

  /** Main result: the datagrams carry the whole payload, in order and without a byte of a header. */
  lemma {:induction false} SendLosesNothing(payload: seq<byte>)
    ensures Assembled(payload, NDatagrams(|payload|)) == payload
  {
    AssembledPrefix(payload, NDatagrams(|payload|));
  }
}
