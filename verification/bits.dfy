/** What a sequence of bytes means as a bit stream: each byte contributes its
    eight bits, most significant first -- the order in which `BitWriter`
    fills a byte and `BitReader` empties it. */
module Bits {
  import opened Bytes

  function Zeros(n: nat): (r: seq<bool>)
    ensures |r| == n && forall k :: 0 <= k < n ==> !r[k]
  {
    seq(n, _ => false)
  }

  /** The eight bits of a byte, most significant first. */
  function ByteBits(b: byte): (r: seq<bool>)
    ensures |r| == 8
  {
    seq(8, k requires 0 <= k < 8 => BitAt(b, 7 - k))
  }

  lemma ByteBitsIndex(b: byte, k: nat)
    requires k < 8
    ensures ByteBits(b)[k] == BitAt(b, 7 - k)
  {
  }

  /** The zero byte, which a fresh or just-emptied writer holds, has no bit set. */
  lemma ZeroByteBits()
    ensures ByteBits(0) == Zeros(8)
  {
    forall k | 0 <= k < 8
      ensures ByteBits(0)[k] == Zeros(8)[k]
    {
      ZeroBit(7 - k);
    }
  }

  /** Setting bit `j` of a byte sets its bit number 7 - j counted from the
      most significant end, and leaves the others alone. */
  lemma SetBitBits(v: byte, j: nat)
    requires j < 8
    ensures ByteBits(SetBit(v, j)) == ByteBits(v)[7 - j := true]
  {
    var x, y := ByteBits(SetBit(v, j)), ByteBits(v)[7 - j := true];
    forall k | 0 <= k < 8
      ensures x[k] == y[k]
    {
      SetBitSpec(v, 7 - k, j);
      ByteBitsIndex(SetBit(v, j), k);
      ByteBitsIndex(v, k);
    }
  }

  /** Two bytes with the same bits are the same byte. */
  lemma ByteBitsInjective(a: byte, b: byte)
    requires ByteBits(a) == ByteBits(b)
    ensures a == b
  {
    forall i | 0 <= i < 8
      ensures BitAt(a, i) == BitAt(b, i)
    {
      ByteBitsIndex(a, 7 - i);
      ByteBitsIndex(b, 7 - i);
    }
    var x, y := a as int, b as int;
    assert forall i :: 0 <= i < 8 ==> Bit(x, i) == Bit(y, i) by {
      forall i | 0 <= i < 8
        ensures Bit(x, i) == Bit(y, i)
      {
        assert BitAt(a, i) == BitAt(b, i);
      }
    }
    BitsEqual(x, y, 8);
  }

  /** The bit stream of a byte sequence. */
  function Unpack(bytes: seq<byte>): (r: seq<bool>)
    ensures |r| == 8 * |bytes|
  {
    if |bytes| == 0 then [] else ByteBits(bytes[0]) + Unpack(bytes[1..])
  }

  lemma {:induction false} UnpackAppend(a: seq<byte>, b: seq<byte>)
    ensures Unpack(a + b) == Unpack(a) + Unpack(b)
  {
    if |a| > 0 {
      assert (a + b)[1..] == a[1..] + b;
      UnpackAppend(a[1..], b);
    } else {
      assert a + b == b;
    }
  }

  /** Appending one byte appends its eight bits. */
  lemma UnpackSnoc(a: seq<byte>, b: byte)
    ensures Unpack(a + [b]) == Unpack(a) + ByteBits(b)
  {
    UnpackAppend(a, [b]);
    assert Unpack([b]) == ByteBits(b) + Unpack([]);
  }

  /** Byte sequences with the same bit stream are equal: the stream
      determines the bytes. */
  lemma {:induction false} UnpackInjective(a: seq<byte>, b: seq<byte>)
    requires Unpack(a) == Unpack(b)
    ensures a == b
  {
    if |a| > 0 {
      var ua, ub := Unpack(a), Unpack(b);
      assert ByteBits(a[0]) == ua[..8] && ByteBits(b[0]) == ub[..8];
      assert Unpack(a[1..]) == ua[8..] && Unpack(b[1..]) == ub[8..];
      ByteBitsInjective(a[0], b[0]);
      UnpackInjective(a[1..], b[1..]);
      assert a == [a[0]] + a[1..] && b == [b[0]] + b[1..];
    }
  }

  /** Bit `k` of a stream sits at bit position 7 - (k mod 8) of byte k div 8. */
  lemma {:induction false} UnpackIndex(bytes: seq<byte>, k: nat)
    requires k < 8 * |bytes|
    ensures Unpack(bytes)[k] == BitAt(bytes[k / 8], 7 - k % 8)
  {
    assert Unpack(bytes) == ByteBits(bytes[0]) + Unpack(bytes[1..]);
    if k >= 8 {
      UnpackIndex(bytes[1..], k - 8);
      assert bytes[1..][(k - 8) / 8] == bytes[k / 8];
      assert (k - 8) % 8 == k % 8;
    } else {
      ByteBitsIndex(bytes[0], k);
    }
  }

  /** Number of zero bits that pad `n` bits to a whole number of bytes. */
  function Pad(n: nat): (r: nat)
    ensures r < 8 && (n + r) % 8 == 0
  {
    if n % 8 == 0 then 0 else 8 - n % 8
  }

  /** `m` bytes holding `n` bits and their padding are `n` bits rounded up
      to whole bytes. */
  lemma PadBytes(n: nat, m: nat)
    requires 8 * m == n + Pad(n)
    ensures m == (n + 7) / 8
  {
  }
}
