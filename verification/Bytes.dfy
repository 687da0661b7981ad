/** The bytes that go over the network: C chars, and integers laid out in them. */
module Bytes {

  /** A char of the transfer buffers. */
  type byte = b: int | -128 <= b < 128

  /** The value an int has after being stored in a char. */
  function ToChar(n: int): byte {
    (n + 128) % 256 - 128
  }

  /** Storing an int in a char keeps it modulo 256. */
  lemma {:induction false} CharOf(n: int)
    ensures exists q: int :: n - ToChar(n) == q * 256
  {
    var q := (n + 128) / 256;
    assert n - ToChar(n) == q * 256;
  }

  /** The value of a char seen as an unsigned one. */
  function FromChar(b: byte): nat {
    if b < 0 then b + 256 else b
  }

  function Pow256(n: nat): nat {
    if n == 0 then 1 else 256 * Pow256(n - 1)
  }

  /** The n low bytes of x, the lowest first. */
  function Encode(x: nat, n: nat): (s: seq<byte>)
    ensures |s| == n
  {
    if n == 0 then [] else [ToChar(x % 256)] + Encode(x / 256, n - 1)
  }

  function Decode(s: seq<byte>): nat {
    if |s| == 0 then 0 else FromChar(s[0]) + 256 * Decode(s[1..])
  }

  lemma {:induction false} DecodeEncode(x: nat, n: nat)
    requires x < Pow256(n)
    ensures Decode(Encode(x, n)) == x
  {
    if n > 0 {
      DecodeEncode(x / 256, n - 1);
      assert Encode(x, n)[1..] == Encode(x / 256, n - 1);
    }
  }
}
