# Huffman / Shannon-Fano archiver: a verified model of the compression engine

This project models the compression engine of a small Windows archiver
(`Huffman`), which packs a folder's files into one archive with either of two
prefix codes. The model covers:

- **Bit codec.** `BitWriter` packs bits most significant bit first into a
  growing byte list and pads the last byte with zeros. `BitReader` hands back
  every bit of a byte array, padding included. Both are Dafny classes with the
  source's fields.
- **Frequency counting.** `MakeRepitionsTable` and `MakeRepetitionTable` are
  the same counting loop. A `Dictionary<byte, int>` is modelled as the list of
  its pairs in enumeration order, which here is insertion order. The
  Shannon-Fano sort, the archive writer and the decoder's re-insertion all
  follow that order.
- **Huffman strategy.** Tree construction merges the two minimum nodes of a
  priority queue over and over. The priority queue's tie-break is a parameter.
  Codes are root-to-leaf paths, and the decoder walks the tree.
- **Shannon-Fano strategy.** A stable sort by descending count, then a
  recursive split into the `codeTable` field of a `ShannonFanoProcessor`
  object. The split falls at the first index whose running sum reaches
  `total / 2`. The decoder is greedy and works over the inverted code map.
- **Archive format.** A file count, then one record per file with three
  length-prefixed fields: path bytes, the frequency table, and the payload.
  The writers and readers are pure functions on byte sequences, with 32-bit
  little-endian integers.
- **Per-file loops of `Compress` and `Decompress`.** The two processors share
  these loops; `ShannonFanoProcessor.cs:61-165` repeats `HuffmanProcessor.cs:70-171`
  line for line around the other codec. Each round has a cancellation
  checkpoint, then the codec, then one record and one progress report.
  - The strategy is a parameter.
  - Cancellation is a predicate on the index of the file about to start.
  - The file system, UTF-8 conversion and `Path.Combine` are the `Host`
    parameter.
  - For the loops both processors share, the table below cites the Huffman
    processor's lines.
- **Two small helpers.** `CommandLineArgs.Parse` and `FileUtils.GetFolderSize`.

Every exception the source can raise on these paths is an `Error` value, so
every input is handled: empty files, missing keys, truncated archives,
negative lengths and checked-sum overflow. In these cases the model keeps the
source's own behaviour:

- An empty file throws in both strategies.
  - Huffman: `InvalidOperationException` from the last `Dequeue`.
  - Shannon-Fano: `ArgumentOutOfRangeException` from indexing the empty
    sorted list.
- A file made of a single repeated byte gets different codes.
  - Huffman gives it the code "" and stores an empty payload, so the file
    decodes to zero bytes.
  - Shannon-Fano gives it "0", and each padding bit decodes to another copy.
- Decoding gives back the original bytes followed by at most seven extra
  symbols decoded from the padding. It does not give back exactly the
  original.
- `BinaryReader.ReadBytes` accepts any length up to `Array.MaxLength`
  (0x7FFFFFC7), even one larger than what remains. It then returns the bytes
  that are left, so a too-long record is read back truncated and is not
  rejected. Above `Array.MaxLength` the array it allocates throws
  `OutOfMemoryException`.
- `FolderFileEntry` is used with a third field, `Data`, at
  `HuffmanProcessor.cs:161` and `FileUtils.cs:6`. The struct declared in
  `FolderFileEntry.cs` has no such field. The model follows the uses.

## Model

| member | source | states |
|---|---|---|
| `Base.Wrap32` | Huffman/Huffman/HuffmanProcessor.cs:31 | Unchecked C# `int` addition gives a value in the `int` range that is congruent to the exact sum modulo 2^32, and equal to it when the sum fits |
| `Base.Half` | Huffman/ShannonFano/ShannonFanoProcessor.cs:31 | `total / 2` truncates toward zero, for negative totals as well |
| `BitStream.BitWriter.constructor` | Huffman/Archive/BitWriter.cs:11-13 | A new writer has an empty buffer, `bitPos` 0, `currentByte` 0, and holds no bits |
| `BitStream.BitWriter.WriteBit` | Huffman/Archive/BitWriter.cs:14-24 | The bit stream grows by one bit, 1 exactly when `bit != 0`. `bitPos` advances modulo 8 and stays in 0..7. `buffer` gains one byte exactly when the eighth bit of a byte arrives, and `currentByte` is then 0 |
| `BitStream.BitWriter.WriteBits` | Huffman/Archive/BitWriter.cs:26-32 | The stream grows by one bit per character, in string order: '1' gives 1 and any other character 0 |
| `BitStream.BitWriter.GetBytes` | Huffman/Archive/BitWriter.cs:34-38 | Returns the packing of all bits written, which is ceil(n/8) bytes. A pending partial byte is appended to `buffer`. `bitPos` and `currentByte` are unchanged, so a second call appends the same partial byte again |
| `BitStream.BitReader.constructor` | Huffman/Archive/BitWriter.cs:46-49 | A new reader stands at bit 0, with every bit of `input` still to be read |
| `BitStream.BitReader.ReadBit` | Huffman/Archive/BitWriter.cs:51-67 | While bits remain, returns true with the next bit of the data (most significant first) and advances by one bit. Once all 8·`data.Length` bits are read, returns false with `bit = 0` and does not move |
| `BitStream.PackBitsAt` | Huffman/Archive/BitWriter.cs:16 | The k-th bit written lands in byte k/8, at position k%8 counted from the most significant bit. Every padding bit is 0 |
| `BitStream.PackBitsLength` | Huffman/Archive/BitWriter.cs:36 | n written bits give ceil(n/8) bytes |
| `BitStream.PackUnpack` | Huffman/Archive/BitWriter.cs:59 | Reading back the bytes of n written bits gives those n bits followed by (8 − n%8)%8 zero bits |
| `BitStream.UnpackLength` | Huffman/Archive/BitWriter.cs:53-56 | The reader yields exactly 8 bits per byte of the packed output |
| `BitStream.BytesToBitsAt` | Huffman/Archive/BitWriter.cs:59 | Bit k of the read stream is bit k%8, counted from the most significant, of byte k/8 |
| `BitStream.PackAfterBytes` | Huffman/Archive/BitWriter.cs:34-38 | Flushing full bytes plus fewer than eight pending bits gives the full bytes, then one byte with the pending bits in front and zeros after |
| `BitStream.SetNextBit` | Huffman/Archive/BitWriter.cs:16 | Or-ing bit `pos` into a byte whose bits from `pos` on are zero adds the bit to its written prefix and keeps the bits after it zero |
| `BitStream.ByteOfByteBits` | Huffman/Archive/BitWriter.cs:59 | A byte's eight bits, read most significant first, rebuild the byte |
| `BitStream.PadLength` | Huffman/Archive/BitWriter.cs:36 | The padding is fewer than 8 bits and completes n bits to a whole number of bytes |
| `HuffmanNodes.Leaf` | Huffman/Huffman/HuffmanProcessor.cs:24 | A table entry's node is a leaf (no children) carrying the entry's symbol and its count as `Frequency` |
| `HuffmanNodes.Merge` | Huffman/Huffman/HuffmanProcessor.cs:30-34 | A merged node is not a leaf and has no symbol. Its two children are the dequeued nodes, and its frequency is their wrapped `int` sum |
| `HuffmanNodes.WalkAppend` | Huffman/Huffman/HuffmanProcessor.cs:151-152 | Following a path `p + q` from a node is following `p`, then `q` from where `p` ends |
| `HuffmanNodes.WalkFromLeaf` | Huffman/Huffman/HuffmanNode.cs:15 | A leaf has no children, so no non-empty path leads anywhere from it |
| `Frequency.MakeRepetitionTable` | Huffman/Huffman/HuffmanProcessor.cs:11-20 | The counting loop returns the tally of the input: the distinct bytes in order of first occurrence, each with its number of occurrences |
| `Frequency.CountedIsTally` | Huffman/Huffman/HuffmanProcessor.cs:13-18 | Counting byte after byte with `ContainsKey`/`Add`/increment gives the tally of the input |
| `Frequency.TallyFacts` | Huffman/ShannonFano/ShannonFanoProcessor.cs:10-18 | The table's keys are distinct and are exactly the input's bytes. Each count is the byte's number of occurrences, between 1 and the input length, and the counts sum to the input length |
| `Frequency.TallyKeys` | Huffman/Huffman/HuffmanProcessor.cs:14-15 | The keys come in order of first occurrence, the dictionary's enumeration order |
| `Frequency.TallyAppendNew` | Huffman/Huffman/HuffmanProcessor.cs:14-17 | A byte not seen before is added at the end of the table with count 1 |
| `Frequency.TallyAppendOld` | Huffman/Huffman/HuffmanProcessor.cs:17 | A byte seen before has its count raised by one in place, and nothing else changes |
| `Frequency.TallySize` | Huffman/Huffman/HuffmanProcessor.cs:11-20 | The table has no more entries than the input has bytes |
| `Frequency.SingleSymbolTally` | Huffman/Huffman/HuffmanProcessor.cs:11-20 | A file of n copies of one byte has the single entry (byte, n) |
| `Frequency.FirstOccurrencesFacts` | Huffman/Huffman/HuffmanProcessor.cs:14 | The keys in order of first occurrence are distinct and are exactly the input's bytes |
| `Frequency.AddFacts` | Huffman/Huffman/HuffmanProcessor.cs:14-15 | `Add` of a key not yet present puts it last with its count. Every other key keeps its count, and distinct keys stay distinct |
| `Frequency.SetItemFacts` | Huffman/Huffman/HuffmanProcessor.cs:138 | After the indexer store, the key is present with the stored count. A key already present keeps its place, so the table does not grow; a new key goes last. Every other key keeps its count, and distinct keys stay distinct |
| `HuffmanTree.MinIndex` | Huffman/Huffman/HuffmanProcessor.cs:28 | The index `Dequeue` takes holds a node of minimum priority in the queue |
| `HuffmanTree.Dequeue` | Huffman/Huffman/HuffmanProcessor.cs:28-29 | Hands out a node of the queue whose frequency is no larger than any other node's, and a queue one node shorter |
| `HuffmanTree.MergeOnce` | Huffman/Huffman/HuffmanProcessor.cs:27-35 | Each iteration of the merge loop shortens the queue by one |
| `HuffmanTree.MergeOnceParts` | Huffman/Huffman/HuffmanProcessor.cs:28-34 | One iteration dequeues `left`, then `right` from the rest, and appends their merged node to what remains |
| `HuffmanTree.MergeOnceEntries` | Huffman/Huffman/HuffmanProcessor.cs:27-35 | A merge keeps the multiset of (symbol, frequency) leaf entries in the queue |
| `HuffmanTree.MergeOnceNoOverflow` | Huffman/Huffman/HuffmanProcessor.cs:31 | While the frequencies sum to at most `int.MaxValue`, a merge keeps the sum and nothing wraps |
| `HuffmanTree.MergeAllFacts` | Huffman/Huffman/HuffmanProcessor.cs:27-37 | The loop leaves one well-formed tree. Its leaf entries are those of the queue, it has one internal node per merge, and without overflow its frequency is the queue's total |
| `HuffmanTree.InitialQueueFacts` | Huffman/Huffman/HuffmanProcessor.cs:23-25 | The enqueued leaves are well-formed and carry exactly the table's entries in table order, with the table's total as their frequency sum |
| `HuffmanTree.InitialQueueLeaves` | Huffman/Huffman/HuffmanProcessor.cs:24 | The i-th enqueued node is the leaf of the i-th table entry |
| `HuffmanTree.HuffTree` | Huffman/Huffman/HuffmanProcessor.cs:37 | Building a tree fails exactly on the empty table, with `InvalidOperationException` |
| `HuffmanTree.BuildHuffTree` | Huffman/Huffman/HuffmanProcessor.cs:21-38 | The enqueue loop and the merge loop return the tree of the table |
| `HuffmanTree.HuffTreeFacts` | Huffman/Huffman/HuffmanProcessor.cs:21-38 | For a table of n ≥ 1 entries, the root is well-formed. Its leaves are exactly the table's entries, each once, and its symbols are exactly the table's keys. It has n − 1 internal nodes (n − 1 merges). With non-negative counts that fit an `int`, its frequency is the sum of the counts |
| `HuffmanCoding.BuildCodeTable` | Huffman/Huffman/HuffmanProcessor.cs:39-50 | A null node stores nothing. A leaf stores only its own symbol, under the code that led to it, and a leaf without a symbol stores nothing |
| `HuffmanCoding.CodeTableKeys` | Huffman/Huffman/HuffmanProcessor.cs:39-50 | The symbols that get a code are exactly the symbols of the tree's leaves |
| `HuffmanCoding.CodeTablePaths` | Huffman/Huffman/HuffmanProcessor.cs:43-48 | Every stored code is the path ('0' left, '1' right) from the node to a leaf that carries that symbol |
| `HuffmanCoding.CodeTableBinary` | Huffman/Huffman/HuffmanProcessor.cs:47-48 | Every code is made of '0' and '1' |
| `HuffmanCoding.CodeTableFacts` | Huffman/Huffman/HuffmanProcessor.cs:39-50 | From the root with code "", the symbols coded are the leaf symbols, each code is binary, and each leads to its symbol's leaf |
| `HuffmanCoding.PrefixSameLeaf` | Huffman/Huffman/HuffmanProcessor.cs:43-45 | When one leaf's path is a prefix of another's, the two are the same path to the same symbol |
| `HuffmanCoding.CodesPrefixFree` | Huffman/Huffman/HuffmanProcessor.cs:39-50 | When the root is not a leaf (two or more symbols), every code is non-empty and no code is a prefix of another |
| `HuffmanCoding.HuffmanEncode` | Huffman/Huffman/HuffmanProcessor.cs:51-69 | A successful compression stores the file's tally as its table. An empty file throws `InvalidOperationException`, and the only other failure is `KeyNotFoundException` |
| `HuffmanCoding.HuffmanCompress` | Huffman/Huffman/HuffmanProcessor.cs:51-69 | Count, build the tree, assign codes, write each byte's code and flush. The result is the Huffman encoding of the file, or the error that stops it |
| `HuffmanCoding.WalkDecode` | Huffman/Huffman/HuffmanProcessor.cs:149-158 | The decode loop emits no more symbols than it reads bits. It fails only with `NullReferenceException` or `InvalidOperationException` |
| `HuffmanCoding.HuffmanDecode` | Huffman/Huffman/HuffmanProcessor.cs:146-158 | An empty stored table throws `InvalidOperationException`, and the only other failure is `NullReferenceException`. A decoding has at most one byte per payload bit |
| `HuffmanCoding.DecodeStep` | Huffman/Huffman/HuffmanProcessor.cs:151-157 | One bit of the decode loop: step to a child, then emit and restart at a leaf, fail on a missing child or a leaf without a symbol, or go on otherwise |
| `HuffmanCoding.DecodePayload` | Huffman/Huffman/HuffmanProcessor.cs:146-158 | Rebuilding the tree from the stored table and running the `ReadBit` loop gives the Huffman decoding of the payload |
| `HuffmanProperties.WalkDecodeTotal` | Huffman/Huffman/HuffmanProcessor.cs:151-157 | On a well-formed tree whose root is not a leaf, decoding never fails on any bits |
| `HuffmanProperties.DecodeCode` | Huffman/Huffman/HuffmanProcessor.cs:154-156 | Reading a path that ends at a leaf emits that leaf's symbol and restarts at the root |
| `HuffmanProperties.DecodeEncoded` | Huffman/Huffman/HuffmanProcessor.cs:60-62 | Decoding the codes of some bytes, followed by any bits, gives those bytes, then the decoding of the bits after them |
| `HuffmanProperties.TallyTree` | Huffman/Huffman/HuffmanProcessor.cs:53-54 | A non-empty file's tree is built, is well-formed, has the file's bytes as its leaf symbols, and has one internal node fewer than the table has entries |
| `HuffmanProperties.TallyCodes` | Huffman/Huffman/HuffmanProcessor.cs:56-62 | Every byte of a non-empty file gets a code, so writing them never misses a key |
| `HuffmanProperties.HuffmanRoundTrip` | Huffman/Huffman/HuffmanProcessor.cs:146-158 | For a file with two distinct bytes, compression succeeds and stores the file's tally. Decoding the payload with the tree rebuilt from that table gives the file's bytes followed by at most 7 padding symbols |
| `HuffmanProperties.EncodeEmptyCodes` | Huffman/Huffman/HuffmanProcessor.cs:60-62 | Writing the code "" for every byte writes no bits |
| `HuffmanProperties.HuffmanSingleSymbol` | Huffman/Huffman/HuffmanProcessor.cs:43-44 | A file of n copies of one byte compresses to the table [(byte, n)] with an empty payload, and that record decodes to zero bytes |
| `HuffmanProperties.HuffmanEncodeFails` | Huffman/Huffman/HuffmanProcessor.cs:53-54 | Compression fails exactly on the empty file, with `InvalidOperationException`. Decoding against the empty table fails the same way for every payload |
| `PrefixCodes.Encode` | Huffman/Huffman/HuffmanProcessor.cs:60-62 | Looking up each byte's code fails, with `KeyNotFoundException`, exactly when some byte has no code |
| `PrefixCodes.EncodeSnoc` | Huffman/Huffman/HuffmanProcessor.cs:60-62 | One more byte adds its code's bits at the end |
| `PrefixCodes.EncodeCons` | Huffman/Huffman/HuffmanProcessor.cs:60-62 | The bits of a run are the first byte's code followed by the bits of the rest |
| `PrefixCodes.EncodeAllKeys` | Huffman/ShannonFano/ShannonFanoProcessor.cs:50-52 | When every byte has a code, writing the codes succeeds |
| `PrefixCodes.WriteCodes` | Huffman/Huffman/HuffmanProcessor.cs:59-67 | The `BitWriter` loop gives the packed bits of all the codes, or `KeyNotFoundException` when a byte has no code |
| `ShannonFanoCodes.SortFacts` | Huffman/ShannonFano/ShannonFanoProcessor.cs:44 | `OrderByDescending` gives a descending permutation of the table that keeps table order among equal counts. Length and total are unchanged |
| `ShannonFanoCodes.Insert` | Huffman/ShannonFano/ShannonFanoProcessor.cs:44 | Inserting an entry lengthens the list by one |
| `ShannonFanoCodes.SortByCountDesc` | Huffman/ShannonFano/ShannonFanoProcessor.cs:44 | The sorted list has as many entries as the table |
| `ShannonFanoCodes.SortUnique` | Huffman/ShannonFano/ShannonFanoProcessor.cs:137 | Any descending table whose entries of each count come in table order is the sorted table. Encoder and decoder therefore sort the same table identically |
| `ShannonFanoCodes.SortKeys` | Huffman/ShannonFano/ShannonFanoProcessor.cs:44 | The sort keeps the keys, and keeps them distinct |
| `ShannonFanoCodes.CheckedSum` | Huffman/ShannonFano/ShannonFanoProcessor.cs:26 | The LINQ `Sum` fails only with `OverflowException` |
| `ShannonFanoCodes.CheckedSumFacts` | Huffman/ShannonFano/ShannonFanoProcessor.cs:26 | The sum succeeds exactly when every partial sum fits an `int`, and it is then the total |
| `ShannonFanoCodes.FirstReach` | Huffman/ShannonFano/ShannonFanoProcessor.cs:29-35 | The index the loop breaks at lies within the range |
| `ShannonFanoCodes.FirstReachFacts` | Huffman/ShannonFano/ShannonFanoProcessor.cs:29-35 | The break index is the first whose running sum reaches `total / 2`: the sum up to it reaches the target and no earlier one does |
| `ShannonFanoCodes.SplitOffset` | Huffman/ShannonFano/ShannonFanoProcessor.cs:27-35 | The split lies within a non-empty range |
| `ShannonFanoCodes.Split` | Huffman/ShannonFano/ShannonFanoProcessor.cs:26-35 | `start ≤ split ≤ end`. The only failure is `OverflowException`, and an empty range leaves `split = start` |
| `ShannonFanoCodes.SplitInside` | Huffman/ShannonFano/ShannonFanoProcessor.cs:26-38 | For a descending table and start < end, a successful split is below `end`, so both halves are non-empty and the recursion shrinks |
| `ShannonFanoCodes.OverrunFails` | Huffman/ShannonFano/ShannonFanoProcessor.cs:20-38 | A range with end < start always ends in `ArgumentOutOfRangeException` |
| `ShannonFanoCodes.CodesFor` | Huffman/ShannonFano/ShannonFanoProcessor.cs:20-39 | The build of a range fails only with `ArgumentOutOfRangeException` (indexing at the list's length), `OverflowException` (the checked `Sum`) or a stack overflow |
| `ShannonFanoCodes.Halves` | Huffman/ShannonFano/ShannonFanoProcessor.cs:37-38 | The two recursive calls fail only in those three ways |
| `ShannonFanoCodes.RootCodes` | Huffman/ShannonFano/ShannonFanoProcessor.cs:47 | The build from the root fails only in those three ways, and on an empty table it throws `ArgumentOutOfRangeException` |
| `ShannonFanoCodes.CodesKeys` | Huffman/ShannonFano/ShannonFanoProcessor.cs:20-39 | A range's build stores a code for exactly the range's keys |
| `ShannonFanoCodes.CodesExtend` | Huffman/ShannonFano/ShannonFanoProcessor.cs:21-23 | Every code stored for a range starts with its prefix and is non-empty, and it is binary when the prefix is |
| `ShannonFanoCodes.CodesPrefixFree` | Huffman/ShannonFano/ShannonFanoProcessor.cs:37-38 | With distinct keys, no code stored for a range is a prefix of another |
| `ShannonFanoCodes.JoinPrefixFree` | Huffman/ShannonFano/ShannonFanoProcessor.cs:37-38 | The left half under prefix + "0" and the right half under prefix + "1" together stay prefix-free |
| `ShannonFanoCodes.CodesSucceed` | Huffman/ShannonFano/ShannonFanoProcessor.cs:20-39 | On a descending table of non-negative counts whose total fits an `int`, the build succeeds on every non-empty range |
| `ShannonFanoCodes.RootCodesSucceed` | Huffman/ShannonFano/ShannonFanoProcessor.cs:47 | The build from the root succeeds on such a table |
| `ShannonFanoCodes.RootCodesFacts` | Huffman/ShannonFano/ShannonFanoProcessor.cs:20-39 | A successful root build gives every key exactly one code, and no other. The codes are non-empty, binary and prefix-free |
| `ShannonFanoCodes.SingleEntryCode` | Huffman/ShannonFano/ShannonFanoProcessor.cs:22 | A one-entry table's code is "0" |
| `ShannonFano.Invert` | Huffman/ShannonFano/ShannonFanoProcessor.cs:140 | `ToDictionary` succeeds exactly when no two symbols share a code, and otherwise fails with `ArgumentException` for a duplicate key. On success it has an entry for every code that maps back to the code's symbol, and no other entry |
| `ShannonFano.ShannonFanoEncode` | Huffman/ShannonFano/ShannonFanoProcessor.cs:41-59 | A successful compression stores the file's tally as its table. An empty file throws `ArgumentOutOfRangeException`. The only other failures are `OverflowException`, a stack overflow and `KeyNotFoundException` |
| `ShannonFano.ShannonFanoDecode` | Huffman/ShannonFano/ShannonFanoProcessor.cs:136-152 | An empty stored table throws `ArgumentOutOfRangeException`. The only other failures are `OverflowException`, a stack overflow and the `ArgumentException` of a duplicate code. A decoding has at most one byte per payload bit |
| `ShannonFano.PrefixFreeInjective` | Huffman/ShannonFano/ShannonFanoProcessor.cs:140 | Prefix-free codes are pairwise distinct, so the inversion succeeds |
| `ShannonFano.Greedy` | Huffman/ShannonFano/ShannonFanoProcessor.cs:146-152 | The greedy loop emits no more bytes than it reads bits |
| `ShannonFano.GreedyEncoded` | Huffman/ShannonFano/ShannonFanoProcessor.cs:146-152 | With non-empty prefix-free codes and their inverse, greedily decoding the codes of some bytes followed by any bits gives those bytes, then the decoding of the bits after them |
| `ShannonFano.SortedTally` | Huffman/ShannonFano/ShannonFanoProcessor.cs:43-44 | A file's sorted table is descending, with distinct keys that are exactly the file's bytes, non-negative counts and the file length as total |
| `ShannonFano.TallyCodes` | Huffman/ShannonFano/ShannonFanoProcessor.cs:43-47 | A non-empty file gets a code for each distinct byte and no other. The codes are non-empty, binary and prefix-free |
| `ShannonFano.ShannonFanoRoundTrip` | Huffman/ShannonFano/ShannonFanoProcessor.cs:137-152 | For a non-empty file of at most `int.MaxValue` bytes, compression succeeds and stores the file's tally. Decoding the stored record gives the file's bytes followed by at most 7 padding symbols |
| `ShannonFano.EncodeRun` | Huffman/ShannonFano/ShannonFanoProcessor.cs:50-52 | n copies of the byte coded "0" write n zero bits |
| `ShannonFano.GreedyZeros` | Huffman/ShannonFano/ShannonFanoProcessor.cs:146-152 | With the single code "0", every zero bit decodes to one copy of its byte |
| `ShannonFano.SingleSymbolCodes` | Huffman/ShannonFano/ShannonFanoProcessor.cs:22 | A file of copies of one byte has a one-entry table whose code is "0" |
| `ShannonFano.InvertSingle` | Huffman/ShannonFano/ShannonFanoProcessor.cs:140 | Inverting the single code "0" maps "0" back to its byte |
| `ShannonFano.SingleSymbol` | Huffman/ShannonFano/ShannonFanoProcessor.cs:146-152 | n copies of one byte decode to n + (8 − n%8)%8 copies, one per padding bit as well |
| `ShannonFano.ThreeBecomeEight` | Huffman/ShannonFano/ShannonFanoProcessor.cs:22 | Three copies of a byte come back as eight |
| `ShannonFano.SplitIndex` | Huffman/ShannonFano/ShannonFanoProcessor.cs:26-35 | The checked sum and the `for` loop compute the split of the range, or the sum's `OverflowException` |
| `ShannonFano.ShannonFanoProcessor.constructor` | Huffman/ShannonFano/ShannonFanoProcessor.cs:8 | A new processor's code table is empty |
| `ShannonFano.ShannonFanoProcessor.BuildCodeTable` | Huffman/ShannonFano/ShannonFanoProcessor.cs:20-39 | After the recursive build, `codeTable` is its old contents with the range's codes stored over them, and every code stored is for a symbol of the list from `start` on. Otherwise the build stops with the exception the code-table function names, and recursing on the same range is `StackOverflow`. The stores made before the exception stay: no symbol is removed, and every symbol added comes from the list from `start` on |
| `ShannonFano.ShannonFanoProcessor.ShannonFanoCompress` | Huffman/ShannonFano/ShannonFanoProcessor.cs:41-59 | The result is the Shannon-Fano encoding of the file. `codeTable` is cleared first, so a successful build leaves exactly the codes of the file's table in it |
| `ShannonFano.ShannonFanoProcessor.DecodePayload` | Huffman/ShannonFano/ShannonFanoProcessor.cs:136-152 | The rebuild, inversion and `ReadBit` loop give the greedy decoding of the payload. A successful build leaves exactly the stored table's codes in `codeTable` |
| `FolderFiles.Where` | Huffman/data/FileUtils.cs:5 | Every entry kept has a non-null relative path that starts with `folder + "/"` |
| `FolderFiles.SumLengths` | Huffman/data/FileUtils.cs:6 | The checked `Sum` fails only with `OverflowException`. A successful sum is at least its start, and fits an `int` when the start does |
| `FolderFiles.GetFolderSize` | Huffman/data/FileUtils.cs:3-7 | The folder size is from 0 to `int.MaxValue`, or `OverflowException` |
| `FolderFiles.WhereTotal` | Huffman/data/FileUtils.cs:5-6 | The payload lengths of the kept entries add up to the folder's bytes |
| `FolderFiles.SumLengthsTotal` | Huffman/data/FileUtils.cs:6 | The checked `Sum` is the total length, or `OverflowException` when that exceeds `int.MaxValue` |
| `FolderFiles.GetFolderSizeIsSum` | Huffman/data/FileUtils.cs:3-7 | The folder size is the sum of the payload lengths of the entries inside the folder, hence ≥ 0, or `OverflowException` |
| `FolderFiles.OutsideIgnored` | Huffman/data/FileUtils.cs:5 | An entry outside the folder does not change its size |
| `FolderFiles.FolderBytesSnoc` | Huffman/data/FileUtils.cs:5-6 | One more entry adds its payload length exactly when it is inside the folder |
| `FolderFiles.NotInFolder` | Huffman/data/FileUtils.cs:5 | An entry whose path is the folder itself, is null, or uses `\` as separator is not counted |
| `FolderFiles.NullDataCountsZero` | Huffman/data/FileUtils.cs:6 | An entry with null `Data` contributes 0 |
| `CommandLine.Parse` | Huffman/data/CommandLineArgs.cs:8-28 | At most one flag is set. Empty `args` give no flag and no path. "--compress" or "--create-empty" (any case) set only their own flag, with `Paths = args[1..]`. Otherwise an existing file sets only `IsExtract`, with `Paths = [args[0]]`. Anything else gives no flag and no path |
| `CommandLine.OptionsDistinct` | Huffman/data/CommandLineArgs.cs:14-21 | No argument equals both option names, whatever its case |
| `CommandLine.OptionCaseInsensitive` | Huffman/data/CommandLineArgs.cs:14-21 | "--COMPRESS" and "--Create-Empty" select their modes |
| `CommandLine.ExtractTakesFirst` | Huffman/data/CommandLineArgs.cs:22-25 | An existing file that is neither option selects extraction of that one path, ignoring later arguments |
| `ArchiveFormat.WriteInt32` | Huffman/Huffman/HuffmanProcessor.cs:74 | An `int` is written as four bytes |
| `ArchiveFormat.Int32Digits` | Huffman/Huffman/HuffmanProcessor.cs:74 | The four bytes read little-endian, two's complement, give the value back |
| `ArchiveFormat.WritePairs` | Huffman/Huffman/HuffmanProcessor.cs:94-97 | Each table entry takes five bytes: the key, then the count |
| `ArchiveFormat.WritePairsSnoc` | Huffman/Huffman/HuffmanProcessor.cs:94-97 | The loop writes the entries one after another in enumeration order |
| `ArchiveFormat.WriteTableEntries` | Huffman/Huffman/HuffmanProcessor.cs:93-97 | The table size and the entry loop write the table field |
| `ArchiveFormat.WriteRecord` | Huffman/Huffman/HuffmanProcessor.cs:87-101 | A record takes 12 bytes for its three lengths, plus the path's bytes, five bytes per table entry and the payload's bytes |
| `ArchiveFormat.WriteRecords` | Huffman/Huffman/HuffmanProcessor.cs:78-101 | n records take at least 12·n bytes |
| `ArchiveFormat.Serialize` | Huffman/Huffman/HuffmanProcessor.cs:74-101 | An archive starts with the four bytes of its file count, and one of n records takes at least 4 + 12·n bytes |
| `ArchiveFormat.WriteRecordsSnoc` | Huffman/Huffman/HuffmanProcessor.cs:78-101 | Each loop round appends its record after the earlier ones |
| `ArchiveFormat.ReadInt32` | Huffman/Huffman/HuffmanProcessor.cs:120 | `ReadInt32` succeeds exactly when four bytes remain, gives an `int` and consumes them. Otherwise it fails with `EndOfStreamException` |
| `ArchiveFormat.ReadByte` | Huffman/Huffman/HuffmanProcessor.cs:136 | `ReadByte` gives the next byte, or `EndOfStreamException` at the end |
| `ArchiveFormat.ReadBytes` | Huffman/Huffman/HuffmanProcessor.cs:129 | `ReadBytes(count)` succeeds exactly when 0 ≤ count ≤ `Array.MaxLength`. A negative count throws `ArgumentOutOfRangeException` and a larger one `OutOfMemoryException`. Otherwise it returns min(count, remaining) bytes and splits the input there |
| `ArchiveFormat.ReadTable` | Huffman/Huffman/HuffmanProcessor.cs:135-139 | The table loop never consumes more than its input |
| `ArchiveFormat.ReadTableStep` | Huffman/Huffman/HuffmanProcessor.cs:135-139 | One round of the table loop reads a byte and an `int` and stores the pair with the indexer |
| `ArchiveFormat.ReadTableEntries` | Huffman/Huffman/HuffmanProcessor.cs:133-139 | The table loop on a fresh dictionary computes the table reading |
| `ArchiveFormat.ReadBlock` | Huffman/Huffman/HuffmanProcessor.cs:128-129 | A length-prefixed field always consumes at least its four-byte length |
| `ArchiveFormat.ReadTableBlock` | Huffman/Huffman/HuffmanProcessor.cs:133-139 | The table field always consumes at least its four-byte size |
| `ArchiveFormat.ReadRecord` | Huffman/Huffman/HuffmanProcessor.cs:127-143 | Reading a record always consumes at least its three lengths, 12 bytes, so the per-record loop makes progress |
| `ArchiveFormat.ReadRecords` | Huffman/Huffman/HuffmanProcessor.cs:122-143 | n successful rounds give n records, from at least 12·n bytes. A negative count gives none |
| `ArchiveFormat.Parse` | Huffman/Huffman/HuffmanProcessor.cs:117-143 | Fewer than four bytes throw `EndOfStreamException`. A parsed archive of n records had at least 4 + 12·n bytes |
| `ArchiveFormat.ReadWrittenInt32` | Huffman/Huffman/HuffmanProcessor.cs:120 | An `int` written is read back, and the bytes after it remain |
| `ArchiveFormat.ReadWrittenBytes` | Huffman/Huffman/HuffmanProcessor.cs:143 | Bytes written are read back by their own length |
| `ArchiveFormat.ReadWrittenPairs` | Huffman/Huffman/HuffmanProcessor.cs:135-139 | Re-inserting table pairs written in order, onto a table with none of their keys, appends them in the same order |
| `ArchiveFormat.NewKeyAppends` | Huffman/Huffman/HuffmanProcessor.cs:138 | Storing a key that is not yet present appends it at the end |
| `ArchiveFormat.ReadWrittenBlock` | Huffman/Huffman/HuffmanProcessor.cs:128-129 | A length-prefixed field is read back |
| `ArchiveFormat.ReadWrittenTable` | Huffman/Huffman/HuffmanProcessor.cs:133-139 | A table with distinct keys is read back as the same table |
| `ArchiveFormat.ReadWrittenRecord` | Huffman/Huffman/HuffmanProcessor.cs:127-143 | A record is read back field by field as the same record |
| `ArchiveFormat.ReadRecordsCons` | Huffman/Huffman/HuffmanProcessor.cs:122-143 | Reading n records is reading one, then the other n − 1 |
| `ArchiveFormat.ReadWrittenRecords` | Huffman/Huffman/HuffmanProcessor.cs:122-143 | The records written one after another are read back in order |
| `ArchiveFormat.ParseSerialize` | Huffman/Huffman/HuffmanProcessor.cs:120-143 | Parsing a serialized archive gives back exactly its records, paths as byte strings, whatever follows it |
| `ArchiveFormat.TruncatedArchive` | Huffman/Huffman/HuffmanProcessor.cs:74-101 | An archive whose writer stopped after k of `count` records still has `count` in its header, followed by exactly those k records |
| `ArchiveFormat.NegativeCounts` | Huffman/Huffman/HuffmanProcessor.cs:120-122 | A negative file count reads as an empty archive, and a negative table size as an empty table |
| `ArchiveJob.EncoderOf` | Huffman/Huffman/HuffmanProcessor.cs:53 | Whenever either codec succeeds, the table it stores is the tally of the file's bytes |
| `ArchiveJob.CodecRoundTrip` | Huffman/Huffman/HuffmanProcessor.cs:146-158 | For contents the codec can restore (two distinct bytes for Huffman, any non-empty file for Shannon-Fano), decoding the stored record gives the file's bytes followed by at most 7 padding bytes |
| `ArchiveJob.CompressWith` | Huffman/Huffman/HuffmanProcessor.cs:85 | The processor's compression step gives the strategy's encoding |
| `ArchiveJob.DecodeWith` | Huffman/ShannonFano/ShannonFanoProcessor.cs:136-152 | The processor's decode step gives the strategy's decoding |
| `ArchiveJob.CompressEntry` | Huffman/Huffman/HuffmanProcessor.cs:84-107 | A round past its checkpoint fails exactly when the file cannot be read, the codec fails, the payload is longer than `Array.MaxLength` (then `OutOfMemoryException`), or the relative path is null. Its record is the UTF-8 path, the file's tally and the payload, and always fits the format. Its report names the relative path |
| `ArchiveJob.Rounds` | Huffman/Huffman/HuffmanProcessor.cs:78-107 | One round result per file, and every successful one is writable |
| `ArchiveJob.CompressJob` | Huffman/Huffman/HuffmanProcessor.cs:70-108 | A job gives one record and one report per file finished, and no more than there are files. It completes exactly when every file is finished, and a cancellation is observed at the first file not finished |
| `ArchiveJob.RoundAt` | Huffman/Huffman/HuffmanProcessor.cs:78-107 | Round j depends only on file j |
| `ArchiveJob.CompressFromAt` | Huffman/Huffman/HuffmanProcessor.cs:80-82 | A round whose checkpoint passes runs the file |
| `ArchiveJob.CompressFromStorable` | Huffman/Huffman/HuffmanProcessor.cs:87-101 | Every record a run writes can be written and read back |
| `ArchiveJob.CompressOne` | Huffman/Huffman/HuffmanProcessor.cs:84-107 | A round past its checkpoint writes the bytes of its file's record and reports it, or stops the job with the round's exception |
| `ArchiveJob.Compress` | Huffman/Huffman/HuffmanProcessor.cs:70-108 | The archive is the file count followed by the records of the files finished. The reports and the outcome are those of the loop's run |
| `ArchiveJob.CompressFromDone` | Huffman/Huffman/HuffmanProcessor.cs:78-107 | One record and one report per finished round, in order. Each finished round passed its checkpoint and produced exactly that record and report |
| `ArchiveJob.CompressFromEnd` | Huffman/Huffman/HuffmanProcessor.cs:78-82 | With k rounds finished: the run completes exactly when k is the number of rounds. A cancellation is observed at round k's checkpoint, and an exception comes from round k itself |
| `ArchiveJob.CompressDone` | Huffman/Huffman/HuffmanProcessor.cs:78-107 | A whole job writes the records and sends the reports of files 0 .. k−1, each the one that file gives, and each of those files passed its checkpoint |
| `ArchiveJob.CompressEnd` | Huffman/Huffman/HuffmanProcessor.cs:78-82 | A whole job completes exactly when every file is done. A cancel observed at file k leaves exactly k records, and an exception names file k's failure |
| `ArchiveJob.CompressCompletes` | Huffman/Huffman/HuffmanProcessor.cs:78-108 | When every file's round succeeds and nothing is cancelled, the job completes with one record per file, in file order |
| `ArchiveJob.ExtractEntry` | Huffman/Huffman/HuffmanProcessor.cs:160-161 | A record's entry lies under the output base, carries the UTF-8 decoded path and holds the decoded payload. It fails exactly with the decoder's exception |
| `ArchiveJob.ExtractRound` | Huffman/Huffman/HuffmanProcessor.cs:127-167 | A round consumes archive bytes, and its entry carries decoded data and the relative path its report names |
| `ArchiveJob.ReaderLabelled` | Huffman/Huffman/HuffmanProcessor.cs:160-167 | Every entry a `Decompress` round builds is named by its report and holds data |
| `ArchiveJob.ExtractFromAt` | Huffman/Huffman/HuffmanProcessor.cs:124-126 | A round whose checkpoint passes reads its record |
| `ArchiveJob.ReadRecordFields` | Huffman/Huffman/HuffmanProcessor.cs:127-143 | The reads in the round's body compute the record reading |
| `ArchiveJob.ExtractOne` | Huffman/Huffman/HuffmanProcessor.cs:127-167 | A round past its checkpoint gives the round's entry, report and remaining bytes, or its exception |
| `ArchiveJob.Decompress` | Huffman/Huffman/HuffmanProcessor.cs:114-171 | The entries, reports and outcome are those of the loop's run on the archive bytes |
| `ArchiveJob.ExtractFromFacts` | Huffman/Huffman/HuffmanProcessor.cs:122-167 | Entries and reports come in pairs, each entry named by its report, and each finished round passed its checkpoint. The run completes exactly when all rounds up to the count finish. A cancellation is observed at the first unfinished round |
| `ArchiveJob.Extract` | Huffman/Huffman/HuffmanProcessor.cs:114-171 | Entries and reports come in pairs. An archive too short for its file count throws `EndOfStreamException` and builds nothing, and a cancellation is observed at the first file not finished |
| `ArchiveJob.ExtractOutcome` | Huffman/Huffman/HuffmanProcessor.cs:114-171 | An archive shorter than its header fails with `EndOfStreamException` and builds nothing. Otherwise there are at most max(count, 0) entries, each named by its report and holding data, and the job completes exactly when `count` entries are built. Every entry's checkpoint passed, and a cancelled job stops at the checkpoint right after its last entry |
| `ArchiveJob.FirstCancel` | Huffman/Huffman/HuffmanProcessor.cs:122-124 | The first checkpoint from i on that observes the cancellation, or the end |
| `ArchiveJob.WriteRecordsBlocks` | Huffman/Huffman/HuffmanProcessor.cs:78-101 | The records are written as their blocks, one after another |
| `ArchiveJob.ExtractWritten` | Huffman/Huffman/HuffmanProcessor.cs:122-167 | Reading back blocks written one after another rebuilds each block's entry and report, up to the first cancellation. The run completes when nothing is cancelled |
| `ArchiveJob.ExtractWrittenRecord` | Huffman/Huffman/HuffmanProcessor.cs:128-143 | A round reads back a written record and stops right after it, with the entry of that record and the report of its path |
| `ArchiveJob.EntryRestores` | Huffman/Huffman/HuffmanProcessor.cs:160-167 | A file's record, decoded by the same processor, becomes an entry under the output base with the file's relative path after UTF-8, holding the file's bytes followed by at most 7 padding bytes |
| `ArchiveJob.ArchiveReadsBack` | Huffman/Huffman/HuffmanProcessor.cs:127-161 | Every record of a completed archive is read back as the entry restoring its file |
| `ArchiveJob.ArchiveRoundTrip` | Huffman/Huffman/HuffmanProcessor.cs:70-171 | When every file is compressible and restorable, compression completes. Decompressing the archive with the same processor completes with one entry per file, in order: the same relative path (after UTF-8), placed under the output base, and holding the file's bytes followed by at most 7 padding bytes |

## Left out

- The WinForms user interface (`Form1`, its designer file, `ProgressWindow`, `Program`): dialogs and layout only.
- `ArchiveWorker`: `Task.Run`, events, `CancellationTokenSource` and `ManualResetEventSlim` only put the job on another thread.
  - Cancellation is the `cancelled` predicate, consulted at each loop checkpoint.
  - The pause wait is a no-op, because it only delays the round that follows it.
- File and stream I/O: `File.ReadAllBytes`, `File.Exists`, `BinaryWriter`/`BinaryReader` on files, and `Path.Combine` become parameters.
  - The `Host` parameter covers reading a file (`None` when it cannot be read), `Path.Combine` and UTF-8 in both directions.
  - `File.Exists` is the `fileExists` parameter of `Parse`.
  - Archives are byte sequences.
  - When `Compress` stops early, the archive on disk is what the model returns: the header and the records written so far.
- `new FileInfo(path).Length` and the compression ratio that `Compress` returns: the ratio is floating point, and it divides by zero when the files total 0 bytes.
  - A file `FileInfo` cannot find is the same `FileNotFoundException` as the read that follows it.
- The progress percentage and its `(float)` conversion: floating point. Each report keeps only its file name.
- `ArchiveJob.Decompress`: when the source throws, the caller gets no list at all. The model returns the entries built before the exception alongside the outcome; they are what `ExtractFromFacts` describes.
- `ArchiveJob.CompressWith`: creates a fresh `ShannonFanoProcessor` for each file. The source reuses one object, but each call clears `codeTable` before rebuilding it, so the result is the same.
- `ArchiveJob.DecodeWith`: creates a fresh `ShannonFanoProcessor` for each record, for the same reason.
- The internals of the .NET `PriorityQueue`: the tie-break among equal priorities is a deterministic function of the queue's contents in enqueue order. The real heap's choice can also depend on its insertion history.
- `HuffmanTree.MinIndex`: consults the tie-break only when it names a minimum node; otherwise it takes the first minimum.
- The decoded output of one record growing past `Array.MaxLength` bytes, where `outputBytes.ToArray()` would throw.
  - The model's decoded lists are unbounded.
  - The compression side does model `OutOfMemoryException` for an encoded payload larger than a .NET array.
- `ShannonFano.ShannonFanoProcessor.BuildCodeTable`: a split landing on `end` recurses on the same range forever. The model stops there with `StackOverflow` instead of recursing, which only a table that is not sorted descending can cause.
- Deep recursion: `BuildCodeTable` in either processor could exhaust the stack on a very deep tree or range. The model has unbounded recursion.
- `StringComparison.OrdinalIgnoreCase` is modelled as ASCII case folding. The two option names are ASCII, but non-ASCII letters that fold onto ASCII are not modelled.
- `string.StartsWith` in `GetFolderSize` uses the current culture. The model compares ordinally.
- `FolderFiles.GetFolderSize`: `folder` is a string, never null. In C# a null `folder` makes `folder + "/"` the string "/", so such a call would count the entries whose path starts with "/".
- A file the host cannot read is always `FileNotFoundException`. The model does not tell apart the other I/O exceptions `File.ReadAllBytes` can throw (access denied, a path that is a directory, a sharing violation).
- Unused pieces:
  - `ShannonFanoNode.cs` is unused.
  - `HuffmanCompressedFile.FileName` is never written to the archive.
  - `IArchiveProcessor`'s signature returns `void` while the implementations return `int`; the strategy is a parameter instead.
- `ArchiveJob.ExtractOutcome`: for a job that fails, it does not identify the record whose reading or decoding threw. It states only that the checkpoint before that record passed.
