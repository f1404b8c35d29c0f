/** The compressed file's layout. `CompressFile` writes it with a
    `BinaryWriter` and `DecompressFile` reads it back with a `BinaryReader`,
    integers little-endian:

      int32 entry count,
      per entry a byte (the symbol) and an int64 (its count),
      int64 original length,
      int32 payload length,
      the payload bytes.

    Readers work on the rest of the stream: each returns what it read and
    the bytes after it. */
module ContainerFormat {
  import opened Bytes
  import opened Outcomes
  import opened Frequency
  import opened Sequences

  /** `BinaryReader.ReadByte`. */
  function ReadByte(s: seq<byte>): (r: Result<(byte, seq<byte>)>)
    ensures r.Success? <==> |s| >= 1
    ensures r.Failure? ==> r.error == EndOfStream
    ensures r.Success? ==> s == [r.value.0] + r.value.1
  {
    if |s| < 1 then Failure(EndOfStream) else Success((s[0], s[1..]))
  }

  /** `BinaryReader.ReadInt32`: four bytes, or end of stream. */
  function ReadInt32(s: seq<byte>): (r: Result<(Int32, seq<byte>)>)
    ensures r.Success? <==> |s| >= 4
    ensures r.Failure? ==> r.error == EndOfStream
    ensures r.Success? ==> r.value.1 == s[4..]
  {
    if |s| < 4 then Failure(EndOfStream) else Success((DecodeInt32(s[..4]), s[4..]))
  }

  /** `BinaryReader.ReadInt64`: eight bytes, or end of stream. */
  function ReadInt64(s: seq<byte>): (r: Result<(Int64, seq<byte>)>)
    ensures r.Success? <==> |s| >= 8
    ensures r.Failure? ==> r.error == EndOfStream
    ensures r.Success? ==> r.value.1 == s[8..]
  {
    if |s| < 8 then Failure(EndOfStream) else Success((DecodeInt64(s[..8]), s[8..]))
  }

  /** `BinaryReader.ReadBytes(n)`: a negative count is rejected, and a count
      above the array limit fails when `new byte[n]` is allocated, before
      anything is read; otherwise up to `n` bytes, fewer when the stream
      ends first (no error). */
  function ReadBytes(s: seq<byte>, n: int): (r: Result<(seq<byte>, seq<byte>)>)
    ensures r.Failure? <==> n < 0 || n > MaxArrayLength
    ensures r.Failure? ==> r.error == if n < 0 then NegativeLength else TooLong
    ensures r.Success? ==> r.value.0 + r.value.1 == s
    ensures r.Success? ==> |r.value.0| == if n <= |s| then n else |s|
  {
    if n < 0 then Failure(NegativeLength)
    else if n > MaxArrayLength then Failure(TooLong)
    else
      var k := if n <= |s| then n else |s|;
      assert s[..k] + s[k..] == s;
      Success((s[..k], s[k..]))
  }

  /** A table the writer can store: its size fits the int32 count field and
      every count the int64 field. */
  predicate Storable(t: Table) {
    && |t| < TWO_31
    && forall i :: 0 <= i < |t| ==> -TWO_63 <= t[i].count < TWO_63
  }

  /** The entries as the `foreach` over the table writes them. */
  function WriteEntries(t: Table): (r: seq<byte>)
    requires forall i :: 0 <= i < |t| ==> -TWO_63 <= t[i].count < TWO_63
    ensures |r| == 9 * |t|
  {
    if |t| == 0 then []
    else [t[0].sym] + EncodeInt64(t[0].count) + WriteEntries(t[1..])
  }

  /** The table block: the entry count, then the entries. */
  function WriteTable(t: Table): seq<byte>
    requires Storable(t)
  {
    EncodeInt32(|t|) + WriteEntries(t)
  }

  /** The trailer: the original length, the payload length, the payload. */
  function WriteTrailer(length: Int64, payload: seq<byte>): seq<byte>
    requires |payload| < TWO_31
  {
    EncodeInt64(length) + EncodeInt32(|payload|) + payload
  }

  /** The `for (int i = 0; i < frequencyTableSize; i++)` loop with `k`
      iterations left: read a byte and an int64, then `Dictionary.Add`,
      which throws when the symbol is already in the table `acc`. A zero
      or negative count reads nothing. */
  function ReadEntries(s: seq<byte>, k: int, acc: Table): (r: Result<(Table, seq<byte>)>)
    ensures r.Success? ==> acc <= r.value.0
    ensures r.Failure? ==> r.error == EndOfStream || r.error == DuplicateSymbol
    decreases k
  {
    if k <= 0 then Success((acc, s))
    else
      var (b, s1) :- ReadByte(s);
      var (c, s2) :- ReadInt64(s1);
      if Find(acc, b) >= 0 then Failure(DuplicateSymbol)
      else ReadEntries(s2, k - 1, acc + [Entry(b, c)])
  }

  /** The table block as `DecompressFile` reads it. */
  function ReadTable(s: seq<byte>): Result<(Table, seq<byte>)> {
    var (n, s1) :- ReadInt32(s);
    ReadEntries(s1, n, [])
  }

  /** The entries read after distinct entries `acc` never repeat a symbol:
      `Dictionary.Add` refuses every repeat. */
  lemma {:induction false} ReadEntriesDistinct(s: seq<byte>, k: int, acc: Table)
    requires DistinctSymbols(acc) && ReadEntries(s, k, acc).Success?
    ensures DistinctSymbols(ReadEntries(s, k, acc).value.0)
    decreases k
  {
    if k > 0 {
      var (b, s1) := ReadByte(s).value;
      var (c, s2) := ReadInt64(s1).value;
      DistinctSnoc(acc, Entry(b, c));
      ReadEntriesDistinct(s2, k - 1, acc + [Entry(b, c)]);
    }
  }

  /** A table read back successfully never repeats a symbol. */
  lemma ReadTableDistinct(s: seq<byte>)
    requires ReadTable(s).Success?
    ensures DistinctSymbols(ReadTable(s).value.0)
  {
    var (n, s1) := ReadInt32(s).value;
    ReadEntriesDistinct(s1, n, []);
  }

  /** The trailer as `DecompressFile` reads it. */
  function ReadTrailer(s: seq<byte>): Result<((Int64, seq<byte>), seq<byte>)> {
    var (length, s1) :- ReadInt64(s);
    var (n, s2) :- ReadInt32(s1);
    var (payload, s3) :- ReadBytes(s2, n);
    Success(((length, payload), s3))
  }

  lemma ReadInt32Written(v: Int32, rest: seq<byte>)
    ensures ReadInt32(EncodeInt32(v) + rest) == Success((v, rest))
  {
    var e := EncodeInt32(v);
    assert (e + rest)[..4] == e && (e + rest)[4..] == rest;
    Int32RoundTrip(v);
  }

  lemma ReadInt64Written(v: Int64, rest: seq<byte>)
    ensures ReadInt64(EncodeInt64(v) + rest) == Success((v, rest))
  {
    var e := EncodeInt64(v);
    assert (e + rest)[..8] == e && (e + rest)[8..] == rest;
    Int64RoundTrip(v);
  }

  /** Reading the symbol byte of the first written entry. */
  lemma ReadEntryWritten(t: Table, rest: seq<byte>)
    requires |t| > 0
    requires forall i :: 0 <= i < |t| ==> -TWO_63 <= t[i].count < TWO_63
    ensures ReadByte(WriteEntries(t) + rest) == Success((t[0].sym, EncodeInt64(t[0].count) + (WriteEntries(t[1..]) + rest)))
  {
    var tail := WriteEntries(t[1..]) + rest;
    Regroup([t[0].sym], EncodeInt64(t[0].count), WriteEntries(t[1..]), rest);
    HeadTail(t[0].sym, EncodeInt64(t[0].count) + tail);
  }

  /** Reading back written entries after the distinct entries `acc`
      yields `acc + t` when the symbols stay distinct. */
  lemma {:induction false} ReadEntriesWritten(t: Table, acc: Table, rest: seq<byte>)
    requires forall i :: 0 <= i < |t| ==> -TWO_63 <= t[i].count < TWO_63
    requires DistinctSymbols(acc + t)
    ensures ReadEntries(WriteEntries(t) + rest, |t|, acc) == Success((acc + t, rest))
    decreases |t|
  {
    if |t| == 0 {
      assert acc + t == acc && WriteEntries(t) + rest == rest;
    } else {
      ReadEntryWritten(t, rest);
      ReadInt64Written(t[0].count, WriteEntries(t[1..]) + rest);
      NextEntryFresh(t, acc);
      assert (acc + [t[0]]) + t[1..] == acc + t;
      ReadEntriesWritten(t[1..], acc + [t[0]], rest);
    }
  }

  /** Reading back written entries after the distinct entries `acc` fails
      with the duplicate-key error as soon as a symbol repeats. */
  lemma {:induction false} ReadEntriesDuplicate(t: Table, acc: Table, rest: seq<byte>)
    requires forall i :: 0 <= i < |t| ==> -TWO_63 <= t[i].count < TWO_63
    requires DistinctSymbols(acc) && !DistinctSymbols(acc + t)
    ensures ReadEntries(WriteEntries(t) + rest, |t|, acc) == Failure(DuplicateSymbol)
    decreases |t|
  {
    if |t| == 0 {
      assert false;
    } else {
      ReadEntryWritten(t, rest);
      ReadInt64Written(t[0].count, WriteEntries(t[1..]) + rest);
      if Find(acc, t[0].sym) < 0 {
        DistinctSnoc(acc, t[0]);
        assert (acc + [t[0]]) + t[1..] == acc + t;
        ReadEntriesDuplicate(t[1..], acc + [t[0]], rest);
      }
    }
  }

  /** The next entry's symbol is not among the earlier ones. */
  lemma NextEntryFresh(t: Table, acc: Table)
    requires |t| > 0 && DistinctSymbols(acc + t)
    ensures Find(acc, t[0].sym) < 0
    ensures DistinctSymbols(acc + [t[0]])
  {
    var all := acc + t;
    assert all[|acc|] == t[0];
    forall j | 0 <= j < |acc| ensures acc[j].sym != t[0].sym {
      assert all[j] == acc[j];
    }
    forall i, j | 0 <= i < j < |acc| ensures acc[i].sym != acc[j].sym {
      assert all[i] == acc[i] && all[j] == acc[j];
    }
    DistinctSnoc(acc, t[0]);
  }

  lemma DistinctSnoc(acc: Table, e: Entry)
    requires DistinctSymbols(acc) && Find(acc, e.sym) < 0
    ensures DistinctSymbols(acc + [e])
  {
  }

  /** The table block round trip: a stored table with distinct symbols is
      read back entry for entry, in order; one with a repeated symbol is
      refused with the duplicate-key error. Bytes after the block are left
      for the next reader. */
  lemma TableRoundTrip(t: Table, rest: seq<byte>)
    requires Storable(t)
    ensures DistinctSymbols(t) ==> ReadTable(WriteTable(t) + rest) == Success((t, rest))
    ensures !DistinctSymbols(t) ==> ReadTable(WriteTable(t) + rest) == Failure(DuplicateSymbol)
  {
    var none: Table := [];
    assert none + t == t;
    var body := WriteEntries(t) + rest;
    assert WriteTable(t) + rest == EncodeInt32(|t|) + body;
    ReadInt32Written(|t|, body);
    if DistinctSymbols(t) {
      ReadEntriesWritten(t, none, rest);
    } else {
      ReadEntriesDuplicate(t, none, rest);
    }
  }

  /** The trailer round trip: the original length and the payload come back,
      and bytes after the payload are left unread. */
  lemma TrailerRoundTrip(length: Int64, payload: seq<byte>, rest: seq<byte>)
    requires |payload| <= MaxArrayLength
    ensures ReadTrailer(WriteTrailer(length, payload) + rest) == Success(((length, payload), rest))
  {
    var s2 := payload + rest;
    var s1 := EncodeInt32(|payload|) + s2;
    assert WriteTrailer(length, payload) + rest == EncodeInt64(length) + s1;
    ReadInt64Written(length, s1);
    ReadInt32Written(|payload|, s2);
    assert s2[..|payload|] == payload && s2[|payload|..] == rest;
  }

  /** A stored payload length above the array limit makes the trailer read
      fail when the payload array is allocated, whatever bytes follow. */
  lemma TrailerTooLong(length: Int64, n: Int32, rest: seq<byte>)
    requires n > MaxArrayLength
    ensures ReadTrailer(EncodeInt64(length) + EncodeInt32(n) + rest) == Failure(TooLong)
  {
    var s1 := EncodeInt32(n) + rest;
    assert EncodeInt64(length) + EncodeInt32(n) + rest == EncodeInt64(length) + s1;
    ReadInt64Written(length, s1);
    ReadInt32Written(n, rest);
  }
}
