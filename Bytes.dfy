/**
 * Fixed-width unsigned integers, their little-endian byte encoding, and the
 * in-place slice copy used to assemble wire buffers on both ends of the socket.
 */
module Bytes {

  type byte = b: int | 0 <= b < 0x100
  type u16 = v: int | 0 <= v < 0x1_0000
  type u32 = v: int | 0 <= v < 0x1_0000_0000
  type u64 = v: int | 0 <= v < 0x1_0000_0000_0000_0000

  /** 256 to the power n: one more than the largest value n bytes can hold. */
  function Pow256(n: nat): (p: nat)
    ensures p > 0
  {
    if n == 0 then 1 else 256 * Pow256(n - 1)
  }

  lemma Pow256Widths()
    ensures Pow256(2) == 0x1_0000 && Pow256(4) == 0x1_0000_0000
  {
    assert Pow256(1) == 256;
    assert Pow256(3) == 0x100_0000;
  }

  /** The value of a little-endian byte string: byte 0 is the least significant. */
  function FromLe(bs: seq<byte>): (v: nat)
    ensures v < Pow256(|bs|)
  {
    if bs == [] then 0 else bs[0] + 256 * FromLe(bs[1..])
  }

  /** The n-byte little-endian encoding of v (`to_le_bytes`). */
  function ToLe(v: nat, n: nat): (bs: seq<byte>)
    requires v < Pow256(n)
    ensures |bs| == n
    ensures n > 0 ==> bs[0] == v % 256
  {
    if n == 0 then [] else [v % 256] + ToLe(v / 256, n - 1)
  }

  /** Decoding an encoding gives the value back. */
  lemma {:induction false} FromLeToLe(v: nat, n: nat)
    requires v < Pow256(n)
    ensures FromLe(ToLe(v, n)) == v
  {
    if n > 0 {
      FromLeToLe(v / 256, n - 1);
      assert ToLe(v, n)[1..] == ToLe(v / 256, n - 1);
    }
  }

  /** Encoding a decoded byte string gives the same bytes back. */
  lemma {:induction false} ToLeFromLe(bs: seq<byte>)
    ensures ToLe(FromLe(bs), |bs|) == bs
  {
    if bs != [] {
      ToLeFromLe(bs[1..]);
      var v := FromLe(bs);
      assert v % 256 == bs[0] && v / 256 == FromLe(bs[1..]);
    }
  }

  /** Two byte strings of one length encode the same value only if they are equal. */
  lemma FromLeInjective(a: seq<byte>, b: seq<byte>)
    requires |a| == |b| && FromLe(a) == FromLe(b)
    ensures a == b
  {
    ToLeFromLe(a);
    ToLeFromLe(b);
  }

  function U16ToLe(v: u16): (bs: seq<byte>)
    ensures |bs| == 2 && FromLe(bs) == v
  {
    Pow256Widths();
    FromLeToLe(v, 2);
    ToLe(v, 2)
  }

  function U32ToLe(v: u32): (bs: seq<byte>)
    ensures |bs| == 4 && FromLe(bs) == v
  {
    Pow256Widths();
    FromLeToLe(v, 4);
    ToLe(v, 4)
  }

  /** `u16::from_le_bytes` */
  function U16FromLe(bs: seq<byte>): (v: u16)
    requires |bs| == 2
    ensures U16ToLe(v) == bs
  {
    Pow256Widths();
    ToLeFromLe(bs);
    FromLe(bs)
  }

  /** `u32::from_le_bytes` */
  function U32FromLe(bs: seq<byte>): (v: u32)
    requires |bs| == 4
    ensures U32ToLe(v) == bs
  {
    Pow256Widths();
    ToLeFromLe(bs);
    FromLe(bs)
  }

  /**
   * Overwrites buf[at .. at + |src|] with src and leaves every other byte
   * alone: Rust's `buf[at..at + n].copy_from_slice(src)` and JavaScript's
   * `typedArray.set(src, at)`.
   */
  method CopyInto(buf: array<byte>, at: nat, src: seq<byte>)
    requires at + |src| <= buf.Length
    modifies buf
    ensures buf[..] == old(buf[..at]) + src + old(buf[at + |src|..])
  {
    var i := 0;
    while i < |src|
      invariant 0 <= i <= |src|
      invariant forall k :: 0 <= k < buf.Length ==>
        buf[k] == if at <= k < at + i then src[k - at] else old(buf[k])
    {
      buf[at + i] := src[i];
      i := i + 1;
    }
    assert buf[..] == old(buf[..at]) + src + old(buf[at + |src|..]);
  }
}
