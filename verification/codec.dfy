/** `HuffmanTree.Encode` and `HuffmanTree.Decode`: the payload between the
    code table and the bit stream. */
module Codec {
  import opened Bytes
  import opened Outcomes
  import opened Bits
  import opened BitWriting
  import opened BitReading
  import opened HuffmanTree
  import opened CodeTable
  import opened Sequences

  /** The code `Encode` writes for `b`: the table's, or nothing when
      `TryGetValue` finds no code. */
  function CodeFor(codes: map<byte, Code>, b: byte): Code {
    if b in codes then codes[b] else []
  }

  /** The bits `Encode` writes for `x`: the codes of its bytes, in order. */
  function CodeStream(codes: map<byte, Code>, x: seq<byte>): seq<bool> {
    if |x| == 0 then [] else CodeFor(codes, x[0]) + CodeStream(codes, x[1..])
  }

  /** The `foreach (byte b in inputBytes)` loop of `Encode`: each byte's code,
      one `WriteBit` per bit. */
  function EncodeInto(w: BitWriter, codes: map<byte, Code>, x: seq<byte>): BitWriter
    decreases |x|
  {
    if |x| == 0 then w else EncodeInto(WriteBits(w, CodeFor(codes, x[0])), codes, x[1..])
  }

  /** `Encode`: the loop on a fresh writer, then `Flush`, then the stream's
      bytes. (The progress reports the loop makes are in `Progress`.) */
  function Encode(codes: map<byte, Code>, x: seq<byte>): seq<byte> {
    Flush(EncodeInto(NewWriter, codes, x)).out
  }

  /** The loop feeds the writer exactly the code stream. */
  lemma {:induction false} EncodeIntoHolds(w: BitWriter, bits: seq<bool>, codes: map<byte, Code>, x: seq<byte>)
    requires Holds(w, bits)
    ensures Holds(EncodeInto(w, codes, x), bits + CodeStream(codes, x))
    decreases |x|
  {
    if |x| == 0 {
      assert bits + CodeStream(codes, x) == bits;
    } else {
      var c := CodeFor(codes, x[0]);
      WriteBitsHolds(w, bits, c);
      EncodeIntoHolds(WriteBits(w, c), bits + c, codes, x[1..]);
      Assoc(bits, c, CodeStream(codes, x[1..]));
    }
  }

  /** The encoded bytes carry the codes of the input's bytes, most
      significant bit first, then zero padding to a byte boundary: one byte
      per started group of eight bits. */
  lemma EncodeSpec(codes: map<byte, Code>, x: seq<byte>)
    ensures Unpack(Encode(codes, x)) == CodeStream(codes, x) + Zeros(Pad(|CodeStream(codes, x)|))
    ensures |Encode(codes, x)| == (|CodeStream(codes, x)| + 7) / 8
  {
    var bits := CodeStream(codes, x);
    EncodeFresh(codes, x);
    FlushHolds(EncodeInto(NewWriter, codes, x), bits);
    PadBytes(|bits|, |Encode(codes, x)|);
  }

  /** The loop on a fresh writer holds exactly the code stream. */
  lemma EncodeFresh(codes: map<byte, Code>, x: seq<byte>)
    ensures Holds(EncodeInto(NewWriter, codes, x), CodeStream(codes, x))
  {
    var none: seq<bool> := [];
    assert none + CodeStream(codes, x) == CodeStream(codes, x);
    NewWriterHolds();
    EncodeIntoHolds(NewWriter, none, codes, x);
  }

  lemma {:induction false} CodeStreamAppend(codes: map<byte, Code>, a: seq<byte>, b: seq<byte>)
    ensures CodeStream(codes, a + b) == CodeStream(codes, a) + CodeStream(codes, b)
    decreases |a|
  {
    if |a| == 0 {
      assert a + b == b;
    } else {
      assert (a + b)[1..] == a[1..] + b;
      CodeStreamAppend(codes, a[1..], b);
    }
  }

  /** A byte without a code leaves no trace in the encoding: `Encode`
      silently skips it. */
  lemma UncodedSkipped(codes: map<byte, Code>, a: seq<byte>, b: byte, c: seq<byte>)
    requires b !in codes
    ensures Encode(codes, a + [b] + c) == Encode(codes, a + c)
  {
    CodeStreamAppend(codes, a + [b], c);
    CodeStreamAppend(codes, a, [b]);
    CodeStreamAppend(codes, a, c);
    assert CodeStream(codes, [b]) == [];
    var s := CodeStream(codes, a + [b] + c);
    assert s == CodeStream(codes, a + c);
    EncodeSpec(codes, a + [b] + c);
    EncodeSpec(codes, a + c);
    UnpackInjective(Encode(codes, a + [b] + c), Encode(codes, a + c));
  }

  /** The `while (decompressedBytesCount < originalDataLength)` loop of
      `Decode`, at node `u` of the tree `root`, with reader `r` and the bytes
      `out` decoded so far. At a leaf it emits the leaf's symbol and goes
      back to the root without reading; at an internal node it reads one bit
      and goes right on a one, left on a zero, and throws when no bit is
      left. (The source's `break` when the count already equals the length
      sits inside the loop, whose condition rules that out, so it never
      fires and the model leaves it out.) */
  function DecodeLoop(root: Tree, u: Tree, r: BitReader, out: seq<byte>, len: int): (res: Result<seq<byte>>)
    ensures res.Success? ==> out <= res.value && |res.value| == if |out| < len then len else |out|
    ensures res.Failure? ==> res.error == EndOfStream
    decreases len - |out|, BitsLeft(r)
  {
    if |out| >= len then Success(out)
    else match u
      case Leaf(s, _) => DecodeLoop(root, root, r, out + [s], len)
      case Node(left, right, _) =>
        if !CanReadBit(r) then Failure(EndOfStream)
        else match ReadBit(r)
          case Failure(e) => Failure(e)
          case Success((bit, r1)) => DecodeLoop(root, if bit then right else left, r1, out, len)
  }

  /** `Decode`: the loop from the root on a fresh reader, with no output yet.
      On success it returns exactly `originalDataLength` bytes (none when
      that is zero or negative). */
  function Decode(root: Tree, bytes: seq<byte>, len: int): (res: Result<seq<byte>>)
    ensures res.Success? ==> |res.value| == if len < 0 then 0 else len
    ensures res.Failure? ==> res.error == EndOfStream
  {
    DecodeLoop(root, root, NewReader(bytes), [], len)
  }

  lemma StreamHead(codes: map<byte, Code>, x: seq<byte>, i: nat)
    requires i < |x|
    ensures CodeStream(codes, x[i..]) == CodeFor(codes, x[i]) + CodeStream(codes, x[i + 1..])
  {
    assert x[i..][0] == x[i];
    assert x[i..][1..] == x[i + 1..];
  }

  /** One turn of the loop at a leaf: emit its symbol, back to the root. */
  lemma LeafTurn(root: Tree, u: Tree, r: BitReader, out: seq<byte>, len: int)
    requires u.Leaf? && |out| < len
    ensures DecodeLoop(root, u, r, out, len) == DecodeLoop(root, root, r, out + [u.sym], len)
  {
  }

  /** One turn of the loop at an internal node with a bit left: take that
      bit's branch, and the reader moves past the bit. */
  lemma NodeTurn(root: Tree, u: Tree, r: BitReader, out: seq<byte>, len: int)
    requires u.Node? && |out| < len
    requires Valid(r) && |Remaining(r)| > 0
    ensures ReadBit(r).Success?
    ensures Valid(ReadBit(r).value.1) && Remaining(ReadBit(r).value.1) == Remaining(r)[1..]
    ensures DecodeLoop(root, u, r, out, len)
         == DecodeLoop(root, if Remaining(r)[0] then u.right else u.left, ReadBit(r).value.1, out, len)
  {
    ReadBitSpec(r);
  }

  /** The decoding loop, midway through the code of `x[i]` with `path` of
      it still to walk and the codes of the following bytes behind it in the
      reader, delivers `x` up to the length `len`, whatever bits follow. */
  lemma {:induction false} DecodeFrom(root: Tree, u: Tree, r: BitReader, x: seq<byte>, i: nat, len: int,
                                      path: Code, tail: seq<bool>)
    requires Valid(r)
    requires i < len <= |x|
    requires forall k :: 0 <= k < |x| ==> x[k] in Syms(root)
    requires LeafAt(u, path, x[i])
    requires Remaining(r) == path + (CodeStream(CodesOf(root), x[i + 1..]) + tail)
    ensures DecodeLoop(root, u, r, x[..i], len) == Success(x[..len])
    decreases len - i, 1, |path|
  {
    if |path| == 0 {
      LeafTurn(root, u, r, x[..i], len);
      TakeSnoc(x, i);
      if i + 1 < len {
        DecodeNext(root, r, x, i + 1, len, tail);
      }
    } else {
      var rest := CodeStream(CodesOf(root), x[i + 1..]) + tail;
      ConsSplit(path, rest);
      NodeTurn(root, u, r, x[..i], len);
      var r1 := ReadBit(r).value.1;
      DecodeFrom(root, if path[0] then u.right else u.left, r1, x, i, len, path[1..], tail);
    }
  }

  /** The loop back at the root with the codes of `x[i..]` ahead of it
      delivers `x` up to the length `len`. */
  lemma {:induction false} DecodeNext(root: Tree, r: BitReader, x: seq<byte>, i: nat, len: int, tail: seq<bool>)
    requires Valid(r)
    requires i < len <= |x|
    requires forall k :: 0 <= k < |x| ==> x[k] in Syms(root)
    requires Remaining(r) == CodeStream(CodesOf(root), x[i..]) + tail
    ensures DecodeLoop(root, root, r, x[..i], len) == Success(x[..len])
    decreases len - i, 2, 0
  {
    var codes := CodesOf(root);
    CodesOfSpec(root);
    assert x[i] in codes;
    var c := CodeFor(codes, x[i]);
    assert LeafAt(root, c, x[i]);
    StreamHead(codes, x, i);
    Assoc(c, CodeStream(codes, x[i + 1..]), tail);
    DecodeFrom(root, root, r, x, i, len, c, tail);
  }

  /** Decoding an encoding with a length `n` up to the input's length gives
      back the first `n` input bytes: decoding stops after `n` symbols, so
      the padding bits and any bytes appended to the payload are ignored.
      The tree need only hold every symbol of the input. */
  lemma RoundTripPrefix(t: Tree, x: seq<byte>, n: int, junk: seq<byte>)
    requires forall k :: 0 <= k < |x| ==> x[k] in Syms(t)
    requires 0 <= n <= |x|
    ensures Decode(t, Encode(CodesOf(t), x) + junk, n) == Success(x[..n])
  {
    var codes := CodesOf(t);
    var out := Encode(codes, x);
    var bits := CodeStream(codes, x);
    EncodeSpec(codes, x);
    NewReaderRemaining(out + junk);
    UnpackAppend(out, junk);
    var tail := Zeros(Pad(|bits|)) + Unpack(junk);
    if n > 0 {
      assert x[0..] == x && x[..0] == [];
      assert Remaining(NewReader(out + junk)) == CodeStream(codes, x[0..]) + tail;
      DecodeNext(t, NewReader(out + junk), x, 0, n, tail);
    }
  }

  /** The headline property: decoding the encoding of `x` with the length of
      `x` gives back `x`. */
  lemma RoundTrip(t: Tree, x: seq<byte>)
    requires forall k :: 0 <= k < |x| ==> x[k] in Syms(t)
    ensures Decode(t, Encode(CodesOf(t), x), |x|) == Success(x)
  {
    RoundTripPrefix(t, x, |x|, []);
    assert Encode(CodesOf(t), x) + [] == Encode(CodesOf(t), x);
    assert x[..|x|] == x;
  }

  /** Below an internal root every decoded symbol costs at least one bit,
      so a successful loop emits at most one symbol per bit left (plus the
      one at the leaf it may stand on). */
  lemma {:induction false} DecodeLoopBound(root: Tree, u: Tree, r: BitReader, out: seq<byte>, len: int)
    requires root.Node?
    requires DecodeLoop(root, u, r, out, len).Success?
    ensures |DecodeLoop(root, u, r, out, len).value| <= |out| + BitsLeft(r) + (if u.Leaf? then 1 else 0)
    decreases len - |out|, BitsLeft(r)
  {
    if |out| < len {
      match u
      case Leaf(s, _) =>
        DecodeLoopBound(root, root, r, out + [s], len);
      case Node(left, right, _) =>
        var (bit, r1) := ReadBit(r).value;
        DecodeLoopBound(root, if bit then right else left, r1, out, len);
    }
  }

  /** When the payload has fewer bits than the length asks for symbols
      (and the tree has more than one leaf), decoding runs out of bits and
      throws `EndOfStreamException`. */
  lemma DecodeTruncated(root: Tree, bytes: seq<byte>, len: int)
    requires root.Node?
    requires len > 8 * |bytes|
    ensures Decode(root, bytes, len) == Failure(EndOfStream)
  {
    if Decode(root, bytes, len).Success? {
      DecodeLoopBound(root, root, NewReader(bytes), [], len);
      assert false;
    }
  }

  lemma {:induction false} SingleLeafStream(s: byte, x: seq<byte>)
    ensures CodeStream(map[s := []], x) == []
    decreases |x|
  {
    if |x| > 0 {
      SingleLeafStream(s, x[1..]);
    }
  }

  /** A one-symbol tree has the empty code, so its payload is empty. */
  lemma SingleLeafEncode(s: byte, w: int, x: seq<byte>)
    ensures Encode(CodesOf(Leaf(s, w)), x) == []
  {
    SingleLeafCode(s, w);
    SingleLeafStream(s, x);
    EncodeSpec(CodesOf(Leaf(s, w)), x);
  }

  lemma {:induction false} SingleLeafLoop(s: byte, w: int, r: BitReader, out: seq<byte>, len: int)
    ensures DecodeLoop(Leaf(s, w), Leaf(s, w), r, out, len)
         == Success(out + seq(if |out| < len then len - |out| else 0, _ => s))
    decreases len - |out|
  {
    if |out| < len {
      SingleLeafLoop(s, w, r, out + [s], len);
      assert (out + [s]) + seq(len - |out| - 1, _ => s) == out + seq(len - |out|, _ => s);
    } else {
      assert out + seq(0, _ => s) == out;
    }
  }

  /** With a one-symbol tree, `Decode` repeats the symbol
      `originalDataLength` times without reading a single bit, whatever the
      payload. */
  lemma SingleLeafDecode(s: byte, w: int, bytes: seq<byte>, len: int)
    ensures Decode(Leaf(s, w), bytes, len) == Success(seq(if len < 0 then 0 else len, _ => s))
  {
    SingleLeafLoop(s, w, NewReader(bytes), [], len);
    assert [] + seq(if len < 0 then 0 else len, _ => s) == seq(if len < 0 then 0 else len, _ => s);
  }
}
