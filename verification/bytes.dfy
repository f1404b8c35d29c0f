/** Bytes, bits and the little-endian integers of `BinaryWriter`/`BinaryReader`. */
module Bytes {

  /** A C# `byte`. */
  newtype byte = x: int | 0 <= x < 256

  const TWO_31: int := 0x8000_0000
  const TWO_32: int := 0x1_0000_0000
  const TWO_63: int := 0x8000_0000_0000_0000
  const TWO_64: int := 0x1_0000_0000_0000_0000

  /** The longest byte array .NET allocates (`Array.MaxLength`): no input
      byte array, no `MemoryStream` buffer and no array `new byte[count]`
      creates is longer. */
  const MaxArrayLength: int := 0x7FFF_FFC7

  /** C# `int` and `long`. */
  type Int32 = x: int | -0x8000_0000 <= x < 0x8000_0000
  type Int64 = x: int | -0x8000_0000_0000_0000 <= x < 0x8000_0000_0000_0000

  /** 2 to the power `i`: the value of `1 << i`. */
  function Pow2(i: nat): (r: nat)
    ensures r > 0
  {
    if i == 0 then 1 else 2 * Pow2(i - 1)
  }

  /** Bit `i` (0 is the least significant) of `v`: `((v >> i) & 1) == 1`,
      with the shift written as `i` halvings. */
  predicate Bit(v: nat, i: nat) {
    if i == 0 then v % 2 == 1 else Bit(v / 2, i - 1)
  }

  /** Zero has no bit set. */
  lemma {:induction false} ZeroBit(i: nat)
    ensures !Bit(0, i)
  {
    if i > 0 {
      ZeroBit(i - 1);
    }
  }

  /** Adding `2^j` to a value whose bit `j` is clear sets bit `j` and no other. */
  lemma {:induction false} AddBit(v: nat, i: nat, j: nat)
    requires !Bit(v, j)
    ensures Bit(v + Pow2(j), i) <==> Bit(v, i) || i == j
  {
    if j == 0 {
      if i > 0 {
        assert (v + 1) / 2 == v / 2;
      }
    } else {
      assert (v + Pow2(j)) / 2 == v / 2 + Pow2(j - 1);
      assert (v + Pow2(j)) % 2 == v % 2;
      if i > 0 {
        AddBit(v / 2, i - 1, j - 1);
      }
    }
  }

  /** ... and stays below `2^m` when `j < m`. */
  lemma {:induction false} AddBitBound(v: nat, j: nat, m: nat)
    requires v < Pow2(m) && j < m && !Bit(v, j)
    ensures v + Pow2(j) < Pow2(m)
  {
    if j > 0 {
      assert v / 2 < Pow2(m - 1);
      AddBitBound(v / 2, j - 1, m - 1);
    }
  }

  /** Values below `2^m` that agree on their `m` low bits are equal. */
  lemma {:induction false} BitsEqual(a: nat, b: nat, m: nat)
    requires a < Pow2(m) && b < Pow2(m)
    requires forall i :: 0 <= i < m ==> Bit(a, i) == Bit(b, i)
    ensures a == b
  {
    if m > 0 {
      forall i | 0 <= i < m - 1
        ensures Bit(a / 2, i) == Bit(b / 2, i)
      {
        assert Bit(a, i + 1) == Bit(b, i + 1);
      }
      BitsEqual(a / 2, b / 2, m - 1);
      assert Bit(a, 0) == Bit(b, 0);
    }
  }

  /** Bit `i` of a byte. */
  predicate BitAt(b: byte, i: nat) {
    Bit(b as int, i)
  }

  /** `v | (byte)(1 << j)`: the byte with bit `j` set. */
  function SetBit(v: byte, j: nat): (r: byte)
    requires j < 8
  {
    if BitAt(v, j) then v
    else
      AddBitBound(v as int, j, 8);
      (v as int + Pow2(j)) as byte
  }

  /** Setting bit `j` sets bit `j` and leaves every other bit alone. */
  lemma SetBitSpec(v: byte, i: nat, j: nat)
    requires j < 8
    ensures BitAt(SetBit(v, j), i) <==> BitAt(v, i) || i == j
  {
    if !BitAt(v, j) {
      AddBit(v as int, i, j);
    }
  }

  /** Unchecked (wrapping) two's-complement reduction to 64 bits, as C# `long`
      addition does by default. */
  function Wrap64(v: int): (r: Int64)
    ensures -TWO_63 <= v < TWO_63 ==> r == v
    ensures (v - r) % TWO_64 == 0
  {
    ((v + TWO_63) % TWO_64) - TWO_63
  }

  function Pow256(n: nat): (r: nat)
    ensures r > 0
  {
    if n == 0 then 1 else 256 * Pow256(n - 1)
  }

  /** The `n` least significant bytes of `u`, least significant first. */
  function LittleEndian(u: nat, n: nat): (r: seq<byte>)
    ensures |r| == n
  {
    if n == 0 then [] else [(u % 256) as byte] + LittleEndian(u / 256, n - 1)
  }

  /** The unsigned value of `bs`, least significant byte first. */
  function FromLittleEndian(bs: seq<byte>): (r: nat)
    ensures r < Pow256(|bs|)
  {
    if |bs| == 0 then 0 else bs[0] as int + 256 * FromLittleEndian(bs[1..])
  }

  lemma {:induction false} LittleEndianRoundTrip(u: nat, n: nat)
    requires u < Pow256(n)
    ensures FromLittleEndian(LittleEndian(u, n)) == u
  {
    if n > 0 {
      var q := u / 256;
      assert u == u % 256 + 256 * q;
      assert q < Pow256(n - 1);
      var bs := LittleEndian(u, n);
      assert bs[1..] == LittleEndian(q, n - 1);
      LittleEndianRoundTrip(q, n - 1);
    }
  }

  /** `BinaryWriter.Write(int)`: four bytes, two's complement, little-endian. */
  function EncodeInt32(v: Int32): (r: seq<byte>)
    ensures |r| == 4
  {
    LittleEndian(if v < 0 then v + TWO_32 else v, 4)
  }

  /** `BinaryReader.ReadInt32` on four available bytes. */
  function DecodeInt32(bs: seq<byte>): Int32
    requires |bs| == 4
  {
    var u := FromLittleEndian(bs);
    if u >= TWO_31 then u - TWO_32 else u
  }

  /** `BinaryWriter.Write(long)`: eight bytes, two's complement, little-endian. */
  function EncodeInt64(v: Int64): (r: seq<byte>)
    ensures |r| == 8
  {
    LittleEndian(if v < 0 then v + TWO_64 else v, 8)
  }

  /** `BinaryReader.ReadInt64` on eight available bytes. */
  function DecodeInt64(bs: seq<byte>): Int64
    requires |bs| == 8
  {
    var u := FromLittleEndian(bs);
    if u >= TWO_63 then u - TWO_64 else u
  }

  lemma Int32RoundTrip(v: Int32)
    ensures DecodeInt32(EncodeInt32(v)) == v
  {
    LittleEndianRoundTrip(if v < 0 then v + TWO_32 else v, 4);
  }

  lemma Int64RoundTrip(v: Int64)
    ensures DecodeInt64(EncodeInt64(v)) == v
  {
    LittleEndianRoundTrip(if v < 0 then v + TWO_64 else v, 8);
  }
}
