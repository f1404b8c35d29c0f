/** `BitWriter`: packs bits into bytes, most significant bit first. */
module BitWriting {
  import opened Bytes
  import opened Bits
  import opened Sequences

  type BitCount = n: int | 0 <= n < 8

  /** The writer's state: the bytes already written to the underlying stream,
      the byte being filled (`_currentByte`) and how many of its bits are
      written (`_bitsWritten`). */
  datatype BitWriter = BitWriter(out: seq<byte>, cur: byte, n: BitCount)

  /** A writer on an empty stream. */
  const NewWriter: BitWriter := BitWriter([], 0, 0)

  /** `WriteBit`: set bit 7 - n for a one, count the bit, and emit the byte
      once it holds eight bits. */
  function WriteBit(w: BitWriter, bit: bool): BitWriter {
    var cur := if bit then SetBit(w.cur, 7 - w.n) else w.cur;
    if w.n + 1 == 8 then BitWriter(w.out + [cur], 0, 0)
    else BitWriter(w.out, cur, w.n + 1)
  }

  /** `Flush`: emit the partly filled byte, if any bit is pending. */
  function Flush(w: BitWriter): BitWriter {
    if w.n > 0 then BitWriter(w.out + [w.cur], 0, 0) else w
  }

  /** `WriteBit` for each bit in turn. */
  function WriteBits(w: BitWriter, bits: seq<bool>): BitWriter
    decreases |bits|
  {
    if |bits| == 0 then w else WriteBit(WriteBits(w, bits[..|bits| - 1]), bits[|bits| - 1])
  }

  /** Number of bits that fill whole bytes. */
  function Whole(n: nat): nat {
    n - n % 8
  }

  /** The writer has taken `bits`: the emitted bytes carry the whole bytes'
      worth of them, the current byte carries the rest, most significant
      first, and zeros below. */
  predicate Holds(w: BitWriter, bits: seq<bool>) {
    && w.n == |bits| % 8
    && Unpack(w.out) == bits[..Whole(|bits|)]
    && ByteBits(w.cur) == bits[Whole(|bits|)..] + Zeros(8 - w.n)
  }

  lemma NewWriterHolds()
    ensures Holds(NewWriter, [])
  {
    ZeroByteBits();
    assert Whole(0) == 0;
  }

  /** The current byte after the next bit: that bit goes to the first free
      position, counted from the most significant end. */
  lemma NextByteBits(cur: byte, n: BitCount, bit: bool)
    requires !ByteBits(cur)[n]
    ensures ByteBits(if bit then SetBit(cur, 7 - n) else cur) == ByteBits(cur)[n := bit]
  {
    if bit {
      SetBitBits(cur, 7 - n);
    }
  }

  /** Placing a bit at the first free position of `pend` followed by zeros. */
  lemma PlaceBit(pend: seq<bool>, bit: bool)
    requires |pend| < 8
    ensures (pend + Zeros(8 - |pend|))[|pend| := bit] == (pend + [bit]) + Zeros(7 - |pend|)
  {
  }

  /** A bit written to a writer that is not about to emit a byte joins the
      pending bits. */
  lemma WriteBitPartial(w: BitWriter, bits: seq<bool>, bit: bool)
    requires Holds(w, bits) && w.n < 7
    ensures Holds(WriteBit(w, bit), bits + [bit])
  {
    var k := Whole(|bits|);
    var pend := bits[k..];
    var bits' := bits + [bit];
    assert Whole(|bits'|) == k;
    assert bits'[..k] == bits[..k];
    assert bits'[k..] == pend + [bit];
    assert !ByteBits(w.cur)[w.n];
    NextByteBits(w.cur, w.n, bit);
    PlaceBit(pend, bit);
  }

  /** The eighth bit completes the current byte, which is emitted. */
  lemma WriteBitFull(w: BitWriter, bits: seq<bool>, bit: bool)
    requires Holds(w, bits) && w.n == 7
    ensures Holds(WriteBit(w, bit), bits + [bit])
  {
    var k := Whole(|bits|);
    var pend := bits[k..];
    var bits' := bits + [bit];
    var cur := if bit then SetBit(w.cur, 7 - w.n) else w.cur;
    assert Whole(|bits'|) == |bits'|;
    assert !ByteBits(w.cur)[w.n];
    NextByteBits(w.cur, w.n, bit);
    PlaceBit(pend, bit);
    assert ByteBits(cur) == pend + [bit];
    UnpackSnoc(w.out, cur);
    assert bits' == bits[..k] + (pend + [bit]);
    assert bits'[|bits'|..] == [];
    ZeroByteBits();
  }

  lemma WriteBitHolds(w: BitWriter, bits: seq<bool>, bit: bool)
    requires Holds(w, bits)
    ensures Holds(WriteBit(w, bit), bits + [bit])
  {
    if w.n < 7 {
      WriteBitPartial(w, bits, bit);
    } else {
      WriteBitFull(w, bits, bit);
    }
  }

  /** A writer that holds `bits` and is given `more` holds `bits + more`. */
  lemma {:induction false} WriteBitsHolds(w: BitWriter, bits: seq<bool>, more: seq<bool>)
    requires Holds(w, bits)
    ensures Holds(WriteBits(w, more), bits + more)
    decreases |more|
  {
    if |more| == 0 {
      assert bits + more == bits;
    } else {
      var q := more[..|more| - 1];
      WriteBitsHolds(w, bits, q);
      WriteBitHolds(WriteBits(w, q), bits + q, more[|more| - 1]);
      Assoc(bits, q, [more[|more| - 1]]);
      assert q + [more[|more| - 1]] == more;
    }
  }

  /** A fresh writer that is given `bits` holds exactly `bits`. */
  lemma {:induction false} WriterState(bits: seq<bool>)
    ensures Holds(WriteBits(NewWriter, bits), bits)
    decreases |bits|
  {
    if |bits| == 0 {
      NewWriterHolds();
    } else {
      var q := bits[..|bits| - 1];
      WriterState(q);
      WriteBitHolds(WriteBits(NewWriter, q), q, bits[|bits| - 1]);
      assert q + [bits[|bits| - 1]] == bits;
    }
  }

  /** Flushing a writer that holds `bits` leaves the bits, zero-padded to a
      byte boundary, on the stream. */
  lemma FlushHolds(w: BitWriter, bits: seq<bool>)
    requires Holds(w, bits)
    ensures Unpack(Flush(w).out) == bits + Zeros(Pad(|bits|))
  {
    var k := Whole(|bits|);
    if w.n == 0 {
      assert bits[..k] == bits;
    } else {
      UnpackSnoc(w.out, w.cur);
      assert bits == bits[..k] + bits[k..];
    }
  }

  /** The stream a fresh writer leaves after the bits and a flush: the
      written bits, most significant first, then zero padding to a byte
      boundary; so ceil(|bits| / 8) bytes, bit `k` at position 7 - (k mod 8)
      of byte k div 8. */
  lemma WriterOutput(bits: seq<bool>)
    ensures Unpack(Flush(WriteBits(NewWriter, bits)).out) == bits + Zeros(Pad(|bits|))
    ensures |Flush(WriteBits(NewWriter, bits)).out| == (|bits| + 7) / 8
    ensures forall k :: 0 <= k < |bits| ==>
              BitAt(Flush(WriteBits(NewWriter, bits)).out[k / 8], 7 - k % 8) == bits[k]
  {
    var out := Flush(WriteBits(NewWriter, bits)).out;
    WriterState(bits);
    FlushHolds(WriteBits(NewWriter, bits), bits);
    forall k | 0 <= k < |bits|
      ensures BitAt(out[k / 8], 7 - k % 8) == bits[k]
    {
      UnpackIndex(out, k);
    }
  }

  /** A second `Flush` (the one `Dispose` makes) writes nothing. */
  lemma FlushTwice(w: BitWriter)
    ensures Flush(Flush(w)) == Flush(w)
    ensures Flush(w).n == 0
  {
  }
}
