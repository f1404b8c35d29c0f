# Huffman file compressor: a Dafny model of the codec

This project models the Huffman codec at the heart of `HuffmanFileCompressor.cs`
and proves its properties. The codec compresses an arbitrary byte array. It
counts how often each byte value occurs and builds a Huffman tree from those
counts. It gives every byte value the root-to-leaf path of its leaf as a code,
then packs the codes into bytes, most significant bit first. Finally it writes a
container holding the frequency table, the original length and the packed
payload. Decompression reads the container back, rebuilds the same tree from the
stored table, and walks the tree bit by bit until the original length is
restored.

Modules, leaves first:

| file | module | models |
|---|---|---|
| `outcomes.dfy` | `Outcomes` | the exceptions the codec can raise, as a `Result` |
| `bytes.dfy` | `Bytes` | bytes, C# `int`/`long` ranges, bit tests and sets, `long` wrap-around, little-endian integers |
| `sequences.dfy` | `Sequences` | generic facts about sequence concatenation and slicing that the proofs share |
| `bits.dfy` | `Bits` | the bit stream of a byte sequence (most significant bit first) |
| `bit_writer.dfy` | `BitWriting` | `BitWriter` |
| `bit_reader.dfy` | `BitReading` | `BitReader` |
| `frequency.dfy` | `Frequency` | the counting loop of `HuffmanTree.Build` |
| `huffman_tree.dfy` | `HuffmanTree` | `HuffmanNode` and the queue-merging loops of `Build` and `BuildFromFrequencyTable` |
| `code_table.dfy` | `CodeTable` | `GenerateCodes` |
| `codec.dfy` | `Codec` | `HuffmanTree.Encode` and `HuffmanTree.Decode` |
| `progress.dfy` | `Progress` | the progress reports of `Encode` |
| `container.dfy` | `ContainerFormat` | the container layout written by `CompressFile` and read by `DecompressFile` |
| `compressor.dfy` | `Compressor` | the codec path of `CompressFile` and `DecompressFile`, from input bytes to output bytes |

How the model is built:

- **Values, not objects.** Everything is an immutable value with pure functions.
  - The writer and the reader are small state records. `WriteBit`, `Flush` and `ReadBit` step them.
  - Streams are `seq<byte>`. Each container reader returns what it read together with the rest of the stream.
- **Exceptions are `Failure` values.** Each exception the codec can throw is a constructor of `Outcomes.Error`.
  - `CompressFile` and `DecompressFile` catch every exception and return an unsuccessful result. So a `Failure` of `Compress` or `Decompress` is exactly such a result.
- **Bit operations are integer arithmetic.**
  - A byte is an integer in 0..255.
  - `(v >> i) & 1` is "bit `i` of `v`", computed by halving `i` times.
  - `v | (1 << j)` adds `2^j` when that bit is clear.
- **The frequency table is a sequence of `(symbol, count)` entries in insertion order.** A `Dictionary<byte, long>` that is only ever added to enumerates its entries in this order.
- **The priority queue is a sequence.**
  - `Enqueue` appends.
  - `Dequeue` takes the earliest entry of minimum weight.
  - This is a fixed rule of the model. It does not claim to reproduce the tie order of .NET's `PriorityQueue`, which .NET leaves unspecified.
  - Decompression only needs the tree to be a function of the ordered entry sequence. It then rebuilds the tree from the same sequence the compressor stored.

Three behaviours of the code that the model states explicitly:

- **Table order.** The frequency dictionary is only ever added to, so it is iterated in insertion order: the order of each byte's first occurrence in the input. `CompressFile` writes the table in that order and `DecompressFile` adds the entries back in the order it reads them. So both sides hand `BuildFromFrequencyTable` the same entry sequence, and nothing depends on the symbols being sorted.
- **Empty input.**
  - The empty table leaves the priority queue empty, so `_root = nodes.Dequeue()` (line 405) throws. The catch at lines 125-129 turns that into an unsuccessful result.
  - The model fails with `EmptyQueue` (`Compressor.CompressEmpty`). Decompressing a table with zero or a negative number of entries fails the same way, at line 434 (`Compressor.DecompressNoEntries`).
  - The repository's test `CompressAndDecompress_EmptyFile_ShouldHandleGracefully` (HuffmanFileCompressor.Test/HuffmanFileCompressor.cs:85-115) expects success for an "empty file". That file is written with `File.WriteAllText(path, "", Encoding.UTF8)` (line 43), which writes the three-byte UTF-8 byte-order mark, and the test expects a size of 3 (line 93). So the test's input is not empty, and it does not contradict the failure on a truly empty input.
- **Single symbol.** An input with only one distinct byte value gets a one-leaf tree.
  - Its code is empty, so `Encode` writes no bits.
  - `Decode` emits the symbol `originalDataLength` times without reading any bits.
  - The model keeps this behaviour and proves it: `Codec.SingleLeafEncode` and `Codec.SingleLeafDecode`.

## Model

| member | source | states |
|---|---|---|
| Bytes.SetBitSpec | HuffmanFileCompressor/HuffmanFileCompressor.cs:622 | Setting bit `j` (or-ing in `1 << j`) makes bit `j` one and leaves every other bit of the byte as it was. |
| Bytes.Wrap64 | HuffmanFileCompressor/HuffmanFileCompressor.cs:345-351 | The parent's weight is unchecked `long` addition: it is the true sum when that fits in 64 bits, and always agrees with it modulo 2^64. |
| Bytes.Int32RoundTrip | HuffmanFileCompressor/HuffmanFileCompressor.cs:103 | A 32-bit integer written as four little-endian two's-complement bytes reads back as itself. |
| Bytes.Int64RoundTrip | HuffmanFileCompressor/HuffmanFileCompressor.cs:107-111 | A 64-bit integer written as eight little-endian two's-complement bytes reads back as itself. |
| BitWriting.WriteBitHolds | HuffmanFileCompressor/HuffmanFileCompressor.cs:618-634 | One `WriteBit` appends its bit to the written stream. The bit lands at the next position of the current byte, most significant first. The eighth bit emits the byte and starts a fresh zero byte. |
| BitWriting.WriteBitsHolds | HuffmanFileCompressor/HuffmanFileCompressor.cs:618-634 | A writer holding a stream, given more bits, holds the stream followed by those bits. |
| BitWriting.WriterState | HuffmanFileCompressor/HuffmanFileCompressor.cs:607-634 | A fresh writer given any bits has emitted the whole bytes' worth of them. The current byte holds the remaining bits with zeros below. |
| BitWriting.FlushHolds | HuffmanFileCompressor/HuffmanFileCompressor.cs:639-647 | `Flush` leaves the written bits on the stream, zero-padded to a byte boundary. The padding is a partial byte only when bits are pending. |
| BitWriting.WriterOutput | HuffmanFileCompressor/HuffmanFileCompressor.cs:601-653 | After writing and flushing, the output has ceil(bits/8) bytes. Bit `k` is at position `7 - k mod 8` of byte `k div 8`. The stream is the bits followed only by zero padding. |
| BitWriting.FlushTwice | HuffmanFileCompressor/HuffmanFileCompressor.cs:649-652 | The second `Flush`, made by `Dispose`, writes nothing. |
| BitReading.ReadBit | HuffmanFileCompressor/HuffmanFileCompressor.cs:677-694 | `ReadBit` throws end-of-stream exactly when the current byte is used up and no byte is left. Otherwise it consumes exactly one bit and never changes the underlying bytes. |
| BitReading.NewReaderRemaining | HuffmanFileCompressor/HuffmanFileCompressor.cs:665-671 | A fresh reader is poised to deliver the bit stream of its bytes, most significant bit first. |
| BitReading.ReadBitSpec | HuffmanFileCompressor/HuffmanFileCompressor.cs:677-709 | `CanReadBit` is true exactly when some bit is left. In that case `ReadBit` returns the next bit of the stream and moves past it. Otherwise `ReadBit` throws. |
| BitReading.ReadBitsSpec | HuffmanFileCompressor/HuffmanFileCompressor.cs:677-694 | `n` reads in a row yield the next `n` bits of the stream, or throw end-of-stream when fewer are left. |
| Frequency.Find | HuffmanFileCompressor/HuffmanFileCompressor.cs:379 | `ContainsKey`: the index of the symbol's entry, or -1 exactly when no entry holds it. |
| Frequency.FrequenciesSpec | HuffmanFileCompressor/HuffmanFileCompressor.cs:376-387 | The table's symbols are distinct and are exactly the bytes that occur in the input. Each count equals the symbol's number of occurrences. The counts sum to the input length. Entries are in first-occurrence order. |
| Frequency.TableBounds | HuffmanFileCompressor/HuffmanFileCompressor.cs:376-387 | With every count at least one, the number of entries and every single count are at most the total. |
| HuffmanTree.MinIndex | HuffmanFileCompressor/HuffmanFileCompressor.cs:399-400 | The dequeued position holds a minimum weight, and no earlier position holds that weight. |
| HuffmanTree.DequeueMin | HuffmanFileCompressor/HuffmanFileCompressor.cs:399-400 | `Dequeue` removes the earliest tree of minimum weight (`q[MinIndex(q)]`). The rest is the queue without it, in the same order, so the multiset of trees and the queue's leaves are split between the removed tree and the remaining queue. |
| HuffmanTree.DequeueMinPerm | HuffmanFileCompressor/HuffmanFileCompressor.cs:399-400 | `Dequeue` neither loses nor invents a tree: as a multiset, the queue is the removed tree plus the rest. |
| HuffmanTree.Dequeue | HuffmanFileCompressor/HuffmanFileCompressor.cs:405 | `Dequeue` throws (`EmptyQueue`) exactly on an empty queue. |
| HuffmanTree.SeedBag | HuffmanFileCompressor/HuffmanFileCompressor.cs:391-394 | Seeding puts one leaf per table entry into the queue, carrying its symbol and count. |
| HuffmanTree.MergeStepBag | HuffmanFileCompressor/HuffmanFileCompressor.cs:397-403 | One merge round keeps the multiset of leaves in the queue. |
| HuffmanTree.MergeStepWeighted | HuffmanFileCompressor/HuffmanFileCompressor.cs:397-403 | After a merge round every tree in the queue still weighs the sum of its children at every internal node. |
| HuffmanTree.MergeAll | HuffmanFileCompressor/HuffmanFileCompressor.cs:397-403 | The loop ends with one tree in the queue, or none when the queue started empty. |
| HuffmanTree.MergeAllSpec | HuffmanFileCompressor/HuffmanFileCompressor.cs:397-403 | The whole merging loop keeps the leaves and keeps every tree well weighted. |
| HuffmanTree.BuildSpec | HuffmanFileCompressor/HuffmanFileCompressor.cs:389-405 | The build throws `EmptyQueue` exactly on an empty table. Otherwise it gives a full binary tree: its leaves are exactly the table's entries, and every internal node weighs the sum of its children. `n` entries give `n` leaves and `n - 1` merges. |
| HuffmanTree.BuildSingle | HuffmanFileCompressor/HuffmanFileCompressor.cs:389-405 | A one-entry table gives a single leaf carrying that entry. |
| HuffmanTree.InternalCountSpec | HuffmanFileCompressor/HuffmanFileCompressor.cs:345-351 | A tree of two-child nodes has one internal node fewer than it has leaves. |
| HuffmanTree.BuildDistinctLeaves | HuffmanFileCompressor/HuffmanFileCompressor.cs:416-435 | A table with distinct symbols rebuilds into a tree whose leaves carry distinct symbols, exactly the table's symbols. |
| CodeTable.CodesArePaths | HuffmanFileCompressor/HuffmanFileCompressor.cs:443-463 | Every leaf symbol gets a code: the accumulated prefix followed by a root-to-leaf path ('0' left, '1' right) to a leaf holding that symbol. |
| CodeTable.LeafPathsPrefixFree | HuffmanFileCompressor/HuffmanFileCompressor.cs:443-463 | No path to a leaf extends another path to a leaf, so codes are prefix-free. |
| CodeTable.CodesOfSpec | HuffmanFileCompressor/HuffmanFileCompressor.cs:443-463 | The code table covers exactly the tree's symbols. Each code is the path to that symbol's leaf, so its length is the leaf's depth. No code is a prefix of another symbol's code. |
| CodeTable.SingleLeafCode | HuffmanFileCompressor/HuffmanFileCompressor.cs:445-450 | A one-leaf tree gives its symbol the empty code. |
| Codec.EncodeSpec | HuffmanFileCompressor/HuffmanFileCompressor.cs:471-506 | The encoded bytes carry the input bytes' codes in order, most significant bit first, followed only by zero padding. There are ceil(bits/8) of them. |
| Codec.UncodedSkipped | HuffmanFileCompressor/HuffmanFileCompressor.cs:485-494 | A byte with no code leaves no trace in the encoding. |
| Codec.DecodeLoop | HuffmanFileCompressor/HuffmanFileCompressor.cs:529-570 | The loop either throws end-of-stream or returns its output extended to exactly the requested length. |
| Codec.Decode | HuffmanFileCompressor/HuffmanFileCompressor.cs:515-573 | `Decode` returns exactly `originalDataLength` bytes (none when it is zero or negative), or throws end-of-stream. |
| Codec.RoundTrip | HuffmanFileCompressor/HuffmanFileCompressor.cs:471-573 | For any tree holding every symbol of `x`, decoding the encoding of `x` with the length of `x` gives back `x`. This includes the single-leaf tree. |
| Codec.RoundTripPrefix | HuffmanFileCompressor/HuffmanFileCompressor.cs:529-570 | Decoding stops after exactly the requested number of symbols. With any length up to the length of `x` it returns that prefix of `x`, and ignores the padding bits and any bytes after the payload. |
| Codec.DecodeTruncated | HuffmanFileCompressor/HuffmanFileCompressor.cs:550-557 | When the tree has two or more leaves and the payload has fewer bits than the requested length, decoding throws end-of-stream. |
| Codec.SingleLeafEncode | HuffmanFileCompressor/HuffmanFileCompressor.cs:485-494 | With a one-leaf tree the payload is empty. |
| Codec.SingleLeafDecode | HuffmanFileCompressor/HuffmanFileCompressor.cs:529-547 | With a one-leaf tree, `Decode` repeats the symbol `originalDataLength` times without reading a bit, whatever the payload. |
| Progress.Percent | HuffmanFileCompressor/HuffmanFileCompressor.cs:496 | The percentage lies in 0..100 and is 100 once every byte is processed. |
| Progress.DivSpec | HuffmanFileCompressor/HuffmanFileCompressor.cs:496 | The quotient used for the percentage is floor division. |
| Progress.ReportsSpec | HuffmanFileCompressor/HuffmanFileCompressor.cs:494-501 | The reported values strictly increase and lie in 1..100. The last one reported is the current percentage. |
| Progress.ReportsComplete | HuffmanFileCompressor/HuffmanFileCompressor.cs:485-502 | A non-empty input ends with a report of 100, after at most a hundred reports. |
| ContainerFormat.ReadByte | HuffmanFileCompressor/HuffmanFileCompressor.cs:171 | `ReadByte` takes the first byte, or throws end-of-stream on an empty rest. |
| ContainerFormat.ReadInt32 | HuffmanFileCompressor/HuffmanFileCompressor.cs:167 | `ReadInt32` consumes four bytes, or throws end-of-stream when fewer are left. |
| ContainerFormat.ReadInt64 | HuffmanFileCompressor/HuffmanFileCompressor.cs:172 | `ReadInt64` consumes eight bytes, or throws end-of-stream when fewer are left. |
| ContainerFormat.ReadBytes | HuffmanFileCompressor/HuffmanFileCompressor.cs:185 | `ReadBytes` fails exactly when the count is negative (`NegativeLength`) or above `Array.MaxLength`, where allocating `new byte[count]` throws before anything is read (`TooLong`). Otherwise it splits off up to that many bytes: fewer, without error, when the stream ends first. |
| ContainerFormat.WriteEntries | HuffmanFileCompressor/HuffmanFileCompressor.cs:104-108 | Each entry takes nine bytes: the symbol and its 64-bit count. |
| ContainerFormat.ReadEntries | HuffmanFileCompressor/HuffmanFileCompressor.cs:169-175 | The entry loop only adds to the table, and fails only by end-of-stream or a duplicate key. |
| ContainerFormat.TableRoundTrip | HuffmanFileCompressor/HuffmanFileCompressor.cs:163-178 | A written table with distinct symbols reads back entry for entry and in order, leaving the bytes after it. A table with a repeated symbol is refused with the duplicate-key error. |
| ContainerFormat.ReadEntriesDistinct | HuffmanFileCompressor/HuffmanFileCompressor.cs:169-175 | Entries read after distinct entries never repeat a symbol, because `Dictionary.Add` refuses every repeat. |
| ContainerFormat.ReadTableDistinct | HuffmanFileCompressor/HuffmanFileCompressor.cs:167-175 | A table block that reads back successfully has no repeated symbol. |
| ContainerFormat.TrailerRoundTrip | HuffmanFileCompressor/HuffmanFileCompressor.cs:181-185 | The original length and a payload of at most `Array.MaxLength` bytes read back as written, leaving the bytes after them. |
| ContainerFormat.TrailerTooLong | HuffmanFileCompressor/HuffmanFileCompressor.cs:181-185 | A stored payload length above `Array.MaxLength` makes the trailer read fail with `TooLong`, whatever follows. |
| Compressor.FrequenciesStorable | HuffmanFileCompressor/HuffmanFileCompressor.cs:103-107 | The table of any byte array fits the container: its entry count fits an `int`, and every count fits a `long`. |
| Compressor.Compress | HuffmanFileCompressor/HuffmanFileCompressor.cs:86-116 | Compression fails only on an empty table or on a payload beyond the array limit. |
| Compressor.Decompress | HuffmanFileCompressor/HuffmanFileCompressor.cs:160-192 | A successful decompression has read a stored table in which no symbol repeats. |
| Compressor.CompressEmpty | HuffmanFileCompressor/HuffmanFileCompressor.cs:125-129 | Compressing an empty input is an unsuccessful result: the empty queue's `Dequeue` throws. |
| Compressor.CompressNonEmpty | HuffmanFileCompressor/HuffmanFileCompressor.cs:86-116 | A non-empty input compresses unless the payload outgrows the array limit. |
| Compressor.TableReadBack | HuffmanFileCompressor/HuffmanFileCompressor.cs:163-178 | Decompression reads back exactly the table compression counted, so it rebuilds the same tree. |
| Compressor.CompressRoundTrip | HuffmanFileCompressor/HuffmanFileCompressor.cs:86-192 | Whatever compresses decompresses to itself. |
| Compressor.DecompressNoEntries | HuffmanFileCompressor/HuffmanFileCompressor.cs:167-178 | A stored entry count of zero or less fails in the rebuild (`EmptyQueue`) before anything else is read. |
| Compressor.DecompressDuplicate | HuffmanFileCompressor/HuffmanFileCompressor.cs:169-175 | A stored table that repeats a symbol fails with the duplicate-key error. |
| Compressor.DecompressShortPayload | HuffmanFileCompressor/HuffmanFileCompressor.cs:181-192 | With two or more stored symbols, a payload with fewer bits than the stored length fails with end-of-stream. |
| Compressor.DecompressHugePayload | HuffmanFileCompressor/HuffmanFileCompressor.cs:176-185 | With a valid stored table, a stored payload length above `Array.MaxLength` fails with `TooLong` when `ReadBytes` allocates the payload array, after the tree has been rebuilt. |

## Left out

- File I/O is not modelled. This covers reading the input, writing the output, `File.Exists`, output-path defaulting, `Directory.CreateDirectory` and the accepted-extension check. The model starts from the input bytes and ends at the output bytes.
- The events, log4net and the process-wide `CompressionSettings` are not modelled. They do not affect the bytes produced.
- The result records are not modelled. A `Failure` stands for `IsSuccess = false`.
  - The sizes they report are the lengths of the model's sequences.
  - The `double` compression ratio is left out. It is floating point and divides by zero on an empty input.
- Progress.Percent: takes `done * 100 div total` exactly, where the source uses `double` arithmetic. For example, `(int)(29.0 / 100 * 100)` is 28, not 29. So the source can report one less than the model at some steps.
  - Monotonicity and the final 100 also hold for the `double` version, but the model does not prove them for it.
  - `Encode`'s output does not depend on these reports.
- The tie order of .NET's `PriorityQueue` is left out. The model fixes its own deterministic rule, which is enough for compression and decompression to build the same tree.
- The `null` checks of `Encode` and `Decode` are not modelled. This covers an unbuilt tree, a `null` node during decoding and a leaf without a character. `Tree` has no such values, and the builders never produce them.
- The `break` inside `Decode`'s loop is left out. It fires only when `decompressedBytesCount == originalDataLength`, which the loop condition already rules out.
- Codec.Decode: does not model the output `MemoryStream`'s array limit. A stored `originalDataLength` beyond what .NET can allocate makes the source throw, while the model returns a sequence that long.
- Compressor.Compress: takes an input of at most `Array.MaxLength` bytes as a precondition, since `File.ReadAllBytes` cannot return more. The limit on the payload's `MemoryStream` is modelled as the `TooLong` failure, with the same bound.
- The `long` counters of the counting loop and of `Decode` are unbounded integers. They cannot overflow below the array limit.
