/** The codec path of `CompressFile` and `DecompressFile`: everything between
    the input file's bytes and the output file's bytes. Any failure on the
    way is the exception the facade catches and turns into an unsuccessful
    result. */
module Compressor {
  import opened Bytes
  import opened Outcomes
  import opened Frequency
  import opened HuffmanTree
  import opened CodeTable
  import opened Codec
  import opened ContainerFormat

  /** The frequency table of a byte array can be stored: every count is at
      least one, so neither the entry count nor any count exceeds the input
      length. */
  lemma FrequenciesStorable(x: seq<byte>)
    requires |x| <= MaxArrayLength
    ensures Storable(Frequencies(x))
  {
    var t := Frequencies(x);
    FrequenciesCounts(x);
    FrequenciesTotal(x);
    assert forall i :: 0 <= i < |t| ==> t[i].count >= 1;
    TableBounds(t);
  }

  /** `CompressFile` from the input bytes to the output bytes: count the
      bytes and build the tree (`HuffmanTree.Build`, which throws on an
      empty table), encode, then write the table, the original length and
      the payload. The encoder's `MemoryStream` cannot grow past the array
      limit. */
  function Compress(x: seq<byte>): (r: Result<seq<byte>>)
    requires |x| <= MaxArrayLength
    ensures r.Failure? ==> r.error == EmptyQueue || r.error == TooLong
  {
    var table := Frequencies(x);
    var tree :- Build(table);
    var payload := Encode(CodesOf(tree), x);
    if |payload| > MaxArrayLength then Failure(TooLong)
    else
      FrequenciesStorable(x);
      Success(WriteTable(table) + WriteTrailer(|x|, payload))
  }

  /** `DecompressFile` from the compressed bytes to the restored bytes: read
      the table, rebuild the tree (`BuildFromFrequencyTable`, before anything
      else is read), read the original length and the payload, decode. */
  function Decompress(s: seq<byte>): (r: Result<seq<byte>>)
    ensures r.Success? ==> ReadTable(s).Success? && DistinctSymbols(ReadTable(s).value.0)
  {
    var (table, s1) :- ReadTable(s);
    ReadTableDistinct(s);
    var tree :- Build(table);
    var (trailer, _) :- ReadTrailer(s1);
    Decode(tree, trailer.1, trailer.0)
  }

  /** Compressing an empty input fails: the table is empty and the final
      `Dequeue` throws. */
  lemma CompressEmpty()
    ensures Compress([]) == Failure(EmptyQueue)
  {
    BuildSpec(Frequencies([]));
  }

  /** A non-empty input compresses unless the payload outgrows the array
      limit. */
  lemma CompressNonEmpty(x: seq<byte>)
    requires 0 < |x| <= MaxArrayLength
    ensures Compress(x).Success? || Compress(x) == Failure(TooLong)
  {
    FrequenciesSpec(x);
    assert x[0] in Symbols(Frequencies(x));
    BuildSpec(Frequencies(x));
  }

  /** The table `DecompressFile` reads back is, entry for entry and in
      order, the one compression counted; so both sides build the same
      tree from it. */
  lemma TableReadBack(x: seq<byte>)
    requires |x| <= MaxArrayLength
    ensures Compress(x).Success? ==>
              && ReadTable(Compress(x).value).Success?
              && ReadTable(Compress(x).value).value.0 == Frequencies(x)
              && Build(ReadTable(Compress(x).value).value.0) == Build(Frequencies(x))
  {
    if Compress(x).Success? {
      var table := Frequencies(x);
      FrequenciesSpec(x);
      FrequenciesStorable(x);
      var tree := Build(table).value;
      var payload := Encode(CodesOf(tree), x);
      assert Compress(x).value == WriteTable(table) + WriteTrailer(|x|, payload);
      TableRoundTrip(table, WriteTrailer(|x|, payload));
    }
  }

  /** The end-to-end property: whatever compresses decompresses to itself. */
  lemma CompressRoundTrip(x: seq<byte>)
    requires |x| <= MaxArrayLength
    ensures Compress(x).Success? ==> Decompress(Compress(x).value) == Success(x)
  {
    if Compress(x).Success? {
      var table := Frequencies(x);
      FrequenciesSpec(x);
      FrequenciesStorable(x);
      var tree := Build(table).value;
      var payload := Encode(CodesOf(tree), x);
      var trailer := WriteTrailer(|x|, payload);
      TableRoundTrip(table, trailer);
      TrailerRoundTrip(|x|, payload, []);
      assert trailer + [] == trailer;
      BuildDistinctLeaves(table);
      forall k | 0 <= k < |x| ensures x[k] in Syms(tree) {
        assert x[k] in Symbols(table);
      }
      RoundTrip(tree, x);
    }
  }

  /** A stored table with no entries (a zero or negative count) makes
      decompression fail in the rebuild, before the rest is read. */
  lemma DecompressNoEntries(n: Int32, rest: seq<byte>)
    requires n <= 0
    ensures Decompress(EncodeInt32(n) + rest) == Failure(EmptyQueue)
  {
    ReadInt32Written(n, rest);
    BuildSpec([]);
  }

  /** A stored table that repeats a symbol makes decompression fail with the
      duplicate-key error. */
  lemma DecompressDuplicate(t: Table, rest: seq<byte>)
    requires Storable(t) && !DistinctSymbols(t)
    ensures Decompress(WriteTable(t) + rest) == Failure(DuplicateSymbol)
  {
    TableRoundTrip(t, rest);
  }

  /** With at least two distinct symbols stored, a payload with fewer bits
      than the original length asks for symbols makes decoding run out of
      bits. */
  lemma DecompressShortPayload(t: Table, length: Int64, payload: seq<byte>)
    requires Storable(t) && DistinctSymbols(t) && |t| >= 2
    requires |payload| <= MaxArrayLength && length > 8 * |payload|
    ensures Decompress(WriteTable(t) + WriteTrailer(length, payload)) == Failure(EndOfStream)
  {
    var trailer := WriteTrailer(length, payload);
    TableRoundTrip(t, trailer);
    BuildSpec(t);
    TrailerRoundTrip(length, payload, []);
    assert trailer + [] == trailer;
    DecodeTruncated(Build(t).value, payload, length);
  }

  /** A stored payload length above the array limit makes decompression
      fail when the payload array is allocated, once the table has been read
      and the tree rebuilt. */
  lemma DecompressHugePayload(t: Table, length: Int64, n: Int32, rest: seq<byte>)
    requires Storable(t) && DistinctSymbols(t) && |t| > 0
    requires n > MaxArrayLength
    ensures Decompress(WriteTable(t) + (EncodeInt64(length) + EncodeInt32(n) + rest)) == Failure(TooLong)
  {
    TableRoundTrip(t, EncodeInt64(length) + EncodeInt32(n) + rest);
    BuildSpec(t);
    TrailerTooLong(length, n, rest);
  }
}
