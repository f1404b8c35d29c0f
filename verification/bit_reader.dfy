/** `BitReader`: reads bits from a byte stream, most significant bit first,
    loading the next byte only when the current one is used up. */
module BitReading {
  import opened Bytes
  import opened Outcomes
  import opened Bits
  import opened Sequences

  type ReadCount = i: int | 0 <= i <= 8

  /** The reader's state: the underlying `MemoryStream`'s bytes and position,
      the byte being read (`_currentByte`), how many of its bits are read
      (`_bitsRead`; 8 means the next read loads a byte) and `_endOfStream`. */
  datatype BitReader = BitReader(data: seq<byte>, pos: nat, cur: byte, bitsRead: ReadCount, eos: bool)

  /** A reader at the start of `data`; the first read loads a byte. */
  function NewReader(data: seq<byte>): BitReader {
    BitReader(data, 0, 0, 8, false)
  }

  /** `CanReadBit`. */
  function CanReadBit(r: BitReader): bool {
    if r.eos then false
    else if r.bitsRead < 8 then true
    else r.pos < |r.data|
  }

  /** How many more bits the reader can deliver. */
  function BitsLeft(r: BitReader): nat {
    (8 - r.bitsRead) + (if r.pos <= |r.data| then 8 * (|r.data| - r.pos) else 0)
  }

  /** `ReadBit`: load the next byte when the current one is used up (throwing
      at the end of the stream), then take bit 7 - bitsRead. The reader's
      state after the throw is never used again, so the failure carries none. */
  function ReadBit(r: BitReader): (res: Result<(bool, BitReader)>)
    ensures res.Failure? <==> r.bitsRead == 8 && r.pos >= |r.data|
    ensures res.Failure? ==> res.error == EndOfStream
    ensures res.Success? ==> res.value.1.data == r.data && BitsLeft(res.value.1) == BitsLeft(r) - 1
  {
    if r.bitsRead == 8 && r.pos >= |r.data| then Failure(EndOfStream)
    else
      var r1 := if r.bitsRead == 8 then r.(cur := r.data[r.pos], pos := r.pos + 1, bitsRead := 0) else r;
      Success((BitAt(r1.cur, 7 - r1.bitsRead), r1.(bitsRead := r1.bitsRead + 1)))
  }

  /** `n` calls of `ReadBit` in a row. */
  function ReadBits(r: BitReader, n: nat): Result<(seq<bool>, BitReader)>
    decreases n
  {
    if n == 0 then Success(([], r))
    else
      var (b, r1) :- ReadBit(r);
      var (bs, r2) :- ReadBits(r1, n - 1);
      Success(([b] + bs, r2))
  }

  /** States a reader reaches without throwing. */
  predicate Valid(r: BitReader) {
    r.pos <= |r.data| && !r.eos
  }

  /** The bits the reader will still deliver: the unread bits of the current
      byte, then every bit of the bytes not yet loaded. */
  function Remaining(r: BitReader): seq<bool>
    requires Valid(r)
  {
    (if r.bitsRead < 8 then ByteBits(r.cur)[r.bitsRead..] else []) + Unpack(r.data[r.pos..])
  }

  /** A fresh reader delivers the bit stream of its bytes. */
  lemma NewReaderRemaining(data: seq<byte>)
    ensures Valid(NewReader(data)) && Remaining(NewReader(data)) == Unpack(data)
  {
    assert data[0..] == data;
  }

  /** `CanReadBit` is false exactly when no bit is left; then `ReadBit`
      throws. Otherwise `ReadBit` returns the next bit of the stream and the
      reader moves past it. */
  lemma ReadBitSpec(r: BitReader)
    requires Valid(r)
    ensures |Remaining(r)| == BitsLeft(r)
    ensures CanReadBit(r) <==> |Remaining(r)| > 0
    ensures !CanReadBit(r) ==> ReadBit(r) == Failure(EndOfStream)
    ensures CanReadBit(r) ==>
              && ReadBit(r).Success?
              && ReadBit(r).value.0 == Remaining(r)[0]
              && Valid(ReadBit(r).value.1)
              && Remaining(ReadBit(r).value.1) == Remaining(r)[1..]
  {
    if r.bitsRead < 8 {
      ReadBitInByte(r);
    } else if r.pos < |r.data| {
      ReadBitLoad(r);
    } else {
      assert r.data[r.pos..] == [];
    }
  }

  /** `ReadBit` within the current byte takes its next unread bit. */
  lemma ReadBitInByte(r: BitReader)
    requires Valid(r) && r.bitsRead < 8
    ensures ReadBit(r).Success? && ReadBit(r).value.0 == Remaining(r)[0]
    ensures Valid(ReadBit(r).value.1) && Remaining(ReadBit(r).value.1) == Remaining(r)[1..]
  {
    var u := Unpack(r.data[r.pos..]);
    var bs := ByteBits(r.cur);
    assert Remaining(r) == bs[r.bitsRead..] + u;
    var r1 := ReadBit(r).value.1;
    assert (bs[r.bitsRead..] + u)[1..] == bs[r.bitsRead + 1..] + u;
    if r.bitsRead + 1 == 8 {
      assert bs[8..] == [];
    }
    assert Remaining(r1) == bs[r.bitsRead + 1..] + u;
  }

  /** `ReadBit` with the current byte used up loads the next byte and takes
      its most significant bit. */
  lemma ReadBitLoad(r: BitReader)
    requires Valid(r) && r.bitsRead == 8 && r.pos < |r.data|
    ensures ReadBit(r).Success? && ReadBit(r).value.0 == Remaining(r)[0]
    ensures Valid(ReadBit(r).value.1) && Remaining(ReadBit(r).value.1) == Remaining(r)[1..]
  {
    var u := Unpack(r.data[r.pos..]);
    var d := r.data[r.pos..];
    assert d[1..] == r.data[r.pos + 1..];
    var bs := ByteBits(r.data[r.pos]);
    assert u == bs + Unpack(d[1..]);
    var r1 := ReadBit(r).value.1;
    assert Remaining(r1) == bs[1..] + Unpack(d[1..]);
  }

  /** Reading `n` bits yields the next `n` bits of the stream, or throws
      when fewer are left. */
  lemma ReadBitsSpec(r: BitReader, n: nat)
    requires Valid(r)
    ensures n <= |Remaining(r)| ==>
              && ReadBits(r, n).Success?
              && ReadBits(r, n).value.0 == Remaining(r)[..n]
              && Valid(ReadBits(r, n).value.1)
              && Remaining(ReadBits(r, n).value.1) == Remaining(r)[n..]
    ensures n > |Remaining(r)| ==> ReadBits(r, n) == Failure(EndOfStream)
  {
    if n <= |Remaining(r)| {
      ReadBitsSuccess(r, n);
    } else {
      ReadBitsFailure(r, n);
    }
  }

  lemma {:induction false} ReadBitsSuccess(r: BitReader, n: nat)
    requires Valid(r) && n <= |Remaining(r)|
    ensures ReadBits(r, n).Success?
    ensures ReadBits(r, n).value.0 == Remaining(r)[..n]
    ensures Valid(ReadBits(r, n).value.1) && Remaining(ReadBits(r, n).value.1) == Remaining(r)[n..]
    decreases n
  {
    var s := Remaining(r);
    if n == 0 {
      assert s[..0] == [] && s[0..] == s;
    } else {
      ReadBitSpec(r);
      var (b, r1) := ReadBit(r).value;
      ReadBitsSuccess(r1, n - 1);
      var (bs, r2) := ReadBits(r1, n - 1).value;
      assert ReadBits(r, n) == Success(([b] + bs, r2));
      SplitHead(s, n);
    }
  }

  lemma {:induction false} ReadBitsFailure(r: BitReader, n: nat)
    requires Valid(r) && n > |Remaining(r)|
    ensures ReadBits(r, n) == Failure(EndOfStream)
    decreases n
  {
    ReadBitSpec(r);
    if CanReadBit(r) {
      var r1 := ReadBit(r).value.1;
      ReadBitsFailure(r1, n - 1);
    }
  }
}
