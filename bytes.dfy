/** Bytes and the big-endian fixed-width integers that Java's
    DataOutput.writeInt/writeLong and ByteBuffer.putInt/getInt produce and read. */
module Bytes {

  /** A byte as an unsigned value; Java's signed byte b is stored as b mod 256. */
  type Byte = b: int | 0 <= b < 256

  type Int32 = x: int | -0x8000_0000 <= x < 0x8000_0000

  type Int64 = x: int | -0x8000_0000_0000_0000 <= x < 0x8000_0000_0000_0000

  const INT32_MAX: int := 0x7fff_ffff
  const INT64_MAX: int := 0x7fff_ffff_ffff_ffff

  /** n zero bytes, the contents of a freshly allocated Java byte array. */
  function Zeros(n: nat): (r: seq<Byte>)
    ensures |r| == n
    ensures forall i :: 0 <= i < n ==> r[i] == 0
  {
    seq(n, _ => 0)
  }

  /** Java's narrowing conversion of an integer to int: keep the low 32 bits. */
  function Wrap32(x: int): (r: Int32)
    ensures -0x8000_0000 <= x < 0x8000_0000 ==> r == x
    ensures (r - x) % 0x1_0000_0000 == 0
  {
    (x + 0x8000_0000) % 0x1_0000_0000 - 0x8000_0000
  }

  /** Java's long arithmetic: keep the low 64 bits. */
  function Wrap64(x: int): (r: Int64)
    ensures -0x8000_0000_0000_0000 <= x < 0x8000_0000_0000_0000 ==> r == x
    ensures (r - x) % 0x1_0000_0000_0000_0000 == 0
  {
    (x + 0x8000_0000_0000_0000) % 0x1_0000_0000_0000_0000 - 0x8000_0000_0000_0000
  }

  function Pow256(n: nat): (p: nat)
    ensures p >= 1
  {
    if n == 0 then 1 else 256 * Pow256(n - 1)
  }

  lemma Pow256Widths()
    ensures Pow256(4) == 0x1_0000_0000
    ensures Pow256(8) == 0x1_0000_0000_0000_0000
  {
    assert Pow256(2) == 0x1_0000;
    assert Pow256(4) == 0x1_0000_0000;
    assert Pow256(6) == 0x1_0000_0000_0000;
  }

  /** The n-byte big-endian (most significant byte first) unsigned encoding of u. */
  function ToBE(n: nat, u: nat): (r: seq<Byte>)
    requires u < Pow256(n)
    ensures |r| == n
  {
    if n == 0 then [] else ToBE(n - 1, u / 256) + [u % 256]
  }

  /** The unsigned value of a big-endian byte string. */
  function FromBE(bs: seq<Byte>): (u: nat)
    ensures u < Pow256(|bs|)
  {
    if bs == [] then 0 else FromBE(bs[..|bs| - 1]) * 256 + bs[|bs| - 1]
  }

  lemma {:induction false} FromBEToBE(n: nat, u: nat)
    requires u < Pow256(n)
    ensures FromBE(ToBE(n, u)) == u
  {
    if n > 0 {
      var r := ToBE(n, u);
      assert r[..n - 1] == ToBE(n - 1, u / 256);
      FromBEToBE(n - 1, u / 256);
    }
  }

  lemma {:induction false} ToBEFromBE(bs: seq<Byte>)
    ensures ToBE(|bs|, FromBE(bs)) == bs
  {
    if bs != [] {
      var n := |bs|;
      var pre := bs[..n - 1];
      assert FromBE(bs) / 256 == FromBE(pre);
      assert FromBE(bs) % 256 == bs[n - 1];
      ToBEFromBE(pre);
      assert pre + [bs[n - 1]] == bs;
    }
  }

  /** int32 as DataOutput.writeInt / ByteBuffer.putInt write it: four bytes, two's complement. */
  function EncodeInt32(v: Int32): (r: seq<Byte>)
    ensures |r| == 4
  {
    Pow256Widths();
    ToBE(4, if v < 0 then v + 0x1_0000_0000 else v)
  }

  /** The int that DataInput.readInt / ByteBuffer.getInt reads from four bytes. */
  function DecodeInt32(bs: seq<Byte>): Int32
    requires |bs| == 4
  {
    Pow256Widths();
    var u := FromBE(bs);
    if u >= 0x8000_0000 then u - 0x1_0000_0000 else u
  }

  function EncodeInt64(v: Int64): (r: seq<Byte>)
    ensures |r| == 8
  {
    Pow256Widths();
    ToBE(8, if v < 0 then v + 0x1_0000_0000_0000_0000 else v)
  }

  function DecodeInt64(bs: seq<Byte>): Int64
    requires |bs| == 8
  {
    Pow256Widths();
    var u := FromBE(bs);
    if u >= 0x8000_0000_0000_0000 then u - 0x1_0000_0000_0000_0000 else u
  }

  lemma Int32RoundTrip(v: Int32)
    ensures DecodeInt32(EncodeInt32(v)) == v
  {
    Pow256Widths();
    FromBEToBE(4, if v < 0 then v + 0x1_0000_0000 else v);
  }

  lemma Int32Canonical(bs: seq<Byte>)
    requires |bs| == 4
    ensures EncodeInt32(DecodeInt32(bs)) == bs
  {
    Pow256Widths();
    ToBEFromBE(bs);
  }

  lemma Int64RoundTrip(v: Int64)
    ensures DecodeInt64(EncodeInt64(v)) == v
  {
    Pow256Widths();
    FromBEToBE(8, if v < 0 then v + 0x1_0000_0000_0000_0000 else v);
  }

  lemma Int64Canonical(bs: seq<Byte>)
    requires |bs| == 8
    ensures EncodeInt64(DecodeInt64(bs)) == bs
  {
    Pow256Widths();
    ToBEFromBE(bs);
  }
}
