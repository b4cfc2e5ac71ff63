/** The archive layout written by `Compress` and read by `Decompress`, the same
    in both processors (Huffman/Huffman/HuffmanProcessor.cs,
    Huffman/ShannonFano/ShannonFanoProcessor.cs). `BinaryWriter` becomes the
    byte sequence it produces and `BinaryReader` a read position in a byte
    sequence. The layout is an `int` file count, then per file an `int` path
    length and the path bytes, an `int` table size and that many (`byte`,
    `int`) pairs, and an `int` payload length and the payload bytes. */
module ArchiveFormat {
  import opened Base
  import opened Frequency

  /** One stored file: the bytes of its relative path, its frequency table in
      enumeration order, and its encoded payload. */
  datatype Record = Record(path: seq<byte>, table: Table, payload: seq<byte>)

  const TwoTo32: int := 0x1_0000_0000

  // ---------------------------------------------------------------------------
  // Writing
  // ---------------------------------------------------------------------------

  /** `BinaryWriter.Write(int)`: four bytes of the two's complement value,
      least significant first. */
  function WriteInt32(x: int): (r: seq<byte>)
    requires IsInt32(x)
    ensures |r| == 4
  {
    var u := if x < 0 then x + TwoTo32 else x;
    var u1 := u / 256;
    var u2 := u1 / 256;
    [u % 256, u1 % 256, u2 % 256, u2 / 256]
  }

  /** A record as `Compress` holds it: the path and the payload are .NET
      byte arrays, and the table size and the counts are `int`s. */
  predicate Fits(r: Record)
  {
    && |r.path| <= ArrayMaxLength && |r.table| <= Int32Max && |r.payload| <= ArrayMaxLength
    && forall i | 0 <= i < |r.table| :: IsInt32(r.table[i].1)
  }

  /** The (`byte`, `int`) pairs of a table, in enumeration order. */
  function WritePairs(t: Table): (r: seq<byte>)
    requires forall i | 0 <= i < |t| :: IsInt32(t[i].1)
    ensures |r| == 5 * |t|
  {
    if t == [] then [] else [t[0].0] + WriteInt32(t[0].1) + WritePairs(t[1..])
  }

  /** A length-prefixed byte array, as the path and the payload are written. */
  function WriteBlock(w: seq<byte>): seq<byte>
    requires |w| <= Int32Max
  {
    WriteInt32(|w|) + w
  }

  /** The table size, then its pairs. */
  function WriteTable(t: Table): seq<byte>
    requires |t| <= Int32Max && forall i | 0 <= i < |t| :: IsInt32(t[i].1)
  {
    WriteInt32(|t|) + WritePairs(t)
  }

  /** One record: path, table, payload, each preceded by its length. */
  function WriteRecord(r: Record): (w: seq<byte>)
    requires Fits(r)
    ensures |w| == 12 + |r.path| + 5 * |r.table| + |r.payload|
  {
    WriteBlock(r.path) + WriteTable(r.table) + WriteBlock(r.payload)
  }

  function WriteRecords(rs: seq<Record>): (w: seq<byte>)
    requires forall i | 0 <= i < |rs| :: Fits(rs[i])
    ensures |w| >= 12 * |rs|
  {
    if rs == [] then [] else WriteRecord(rs[0]) + WriteRecords(rs[1..])
  }

  /** A whole archive: the file count, then the records. */
  function Serialize(rs: seq<Record>): (w: seq<byte>)
    requires |rs| <= Int32Max && forall i | 0 <= i < |rs| :: Fits(rs[i])
    ensures |w| >= 4 + 12 * |rs| && w[..4] == WriteInt32(|rs|)
  {
    WriteInt32(|rs|) + WriteRecords(rs)
  }

  // ---------------------------------------------------------------------------
  // Reading: a `BinaryReader` is the part of the archive it has not read yet
  // ---------------------------------------------------------------------------

  /** The signed value of four bytes, least significant first. */
  function LittleEndian(b0: int, b1: int, b2: int, b3: int): int
  {
    var u := b0 + 256 * (b1 + 256 * (b2 + 256 * b3));
    if u > Int32Max then u - TwoTo32 else u
  }

  /** `BinaryReader.ReadInt32`: `EndOfStreamException` unless four bytes remain. */
  function ReadInt32(s: seq<byte>): (r: Result<(int, seq<byte>)>)
    ensures r.Success? <==> |s| >= 4
    ensures r.Failure? ==> r.error == EndOfStream
    ensures r.Success? ==> IsInt32(r.value.0) && r.value.1 == s[4..]
  {
    if |s| < 4 then Failure(EndOfStream)
    else Success((LittleEndian(s[0], s[1], s[2], s[3]), s[4..]))
  }

  /** `BinaryReader.ReadByte`: `EndOfStreamException` at the end. */
  function ReadByte(s: seq<byte>): (r: Result<(byte, seq<byte>)>)
    ensures r.Success? <==> s != []
    ensures r.Failure? ==> r.error == EndOfStream
    ensures r.Success? ==> r.value == (s[0], s[1..])
  {
    if s == [] then Failure(EndOfStream) else Success((s[0], s[1..]))
  }

  /** `BinaryReader.ReadBytes(count)`: a negative count throws
      `ArgumentOutOfRangeException`; the `count`-byte array it allocates before
      reading throws `OutOfMemoryException` above `Array.MaxLength`; otherwise
      up to `count` bytes, fewer when the archive ends first, and no exception. */
  function ReadBytes(s: seq<byte>, count: int): (r: Result<(seq<byte>, seq<byte>)>)
    ensures r.Success? <==> 0 <= count <= ArrayMaxLength
    ensures count < 0 ==> r == Failure(ArgumentOutOfRange)
    ensures count > ArrayMaxLength ==> r == Failure(OutOfMemory)
    ensures r.Success? ==> r.value.0 + r.value.1 == s
    ensures r.Success? ==> |r.value.0| == if count <= |s| then count else |s|
  {
    if count < 0 then Failure(ArgumentOutOfRange)
    else if count > ArrayMaxLength then Failure(OutOfMemory)
    else if count <= |s| then Success((s[..count], s[count..]))
    else Success((s, []))
  }

  /** The table loop of `Decompress`: `n` rounds of `ReadByte`, `ReadInt32`
      and an indexer store into `t` (a repeated key overwrites its count in
      place). A negative `n` runs no round. */
  function ReadTable(s: seq<byte>, n: int, t: Table): (r: Result<(Table, seq<byte>)>)
    ensures r.Success? ==> |r.value.1| <= |s|
    decreases if n < 0 then 0 else n
  {
    if n <= 0 then Success((t, s))
    else
      match ReadByte(s)
      case Failure(e) => Failure(e)
      case Success((b, s1)) =>
        match ReadInt32(s1)
        case Failure(e) => Failure(e)
        case Success((v, s2)) => ReadTable(s2, n - 1, SetItem(t, b, v))
  }

  /** A length then that many bytes, as the path and the payload are read. */
  function ReadBlock(s: seq<byte>): (r: Result<(seq<byte>, seq<byte>)>)
    ensures r.Success? ==> |r.value.1| + 4 <= |s|
  {
    match ReadInt32(s)
    case Failure(e) => Failure(e)
    case Success((length, s1)) => ReadBytes(s1, length)
  }

  /** A table size then the table loop, starting from an empty dictionary. */
  function ReadTableBlock(s: seq<byte>): (r: Result<(Table, seq<byte>)>)
    ensures r.Success? ==> |r.value.1| + 4 <= |s|
  {
    match ReadInt32(s)
    case Failure(e) => Failure(e)
    case Success((size, s1)) => ReadTable(s1, size, [])
  }

  /** One record, field by field in the order `Compress` wrote them. */
  function ReadRecord(s: seq<byte>): (r: Result<(Record, seq<byte>)>)
    ensures r.Success? ==> |r.value.1| + 12 <= |s|
  {
    match ReadBlock(s)
    case Failure(e) => Failure(e)
    case Success((path, s1)) =>
      match ReadTableBlock(s1)
      case Failure(e) => Failure(e)
      case Success((table, s2)) =>
        match ReadBlock(s2)
        case Failure(e) => Failure(e)
        case Success((payload, s3)) => Success((Record(path, table, payload), s3))
  }

  /** `n` records (a negative `n` reads none). */
  function ReadRecords(s: seq<byte>, n: int): (r: Result<seq<Record>>)
    ensures r.Success? ==> |r.value| == (if n < 0 then 0 else n) && 12 * |r.value| <= |s|
    decreases if n < 0 then 0 else n
  {
    if n <= 0 then Success([])
    else
      match ReadRecord(s)
      case Failure(e) => Failure(e)
      case Success((rec, rest)) =>
        match ReadRecords(rest, n - 1)
        case Failure(e) => Failure(e)
        case Success(recs) => Success([rec] + recs)
  }

  /** What the read side of `Decompress` takes from an archive: the file count,
      then that many records; bytes after the last record are ignored. */
  function Parse(s: seq<byte>): (r: Result<seq<Record>>)
    ensures |s| < 4 ==> r == Failure(EndOfStream)
    ensures r.Success? ==> 4 + 12 * |r.value| <= |s|
  {
    match ReadInt32(s)
    case Failure(e) => Failure(e)
    case Success((count, rest)) => ReadRecords(rest, count)
  }

  // ---------------------------------------------------------------------------
  // Round trip
  // ---------------------------------------------------------------------------

  lemma HeadTail<T>(s: seq<T>)
    requires s != []
    ensures [s[0]] + s[1..] == s
  {
  }

  lemma MoveHead<T>(a: seq<T>, t: seq<T>)
    requires t != []
    ensures a + t == (a + [t[0]]) + t[1..]
  {
    HeadTail(t);
    AppendAssoc(a, [t[0]], t[1..]);
  }

  lemma Int32Digits(x: int)
    requires IsInt32(x)
    ensures var w := WriteInt32(x); LittleEndian(w[0], w[1], w[2], w[3]) == x
  {
  }

  lemma ReadWrittenInt32(x: int, rest: seq<byte>)
    requires IsInt32(x)
    ensures ReadInt32(WriteInt32(x) + rest) == Success((x, rest))
  {
    var w := WriteInt32(x);
    var s := w + rest;
    assert s[0] == w[0] && s[1] == w[1] && s[2] == w[2] && s[3] == w[3];
    assert s[4..] == rest;
    Int32Digits(x);
  }

  lemma ReadWrittenBytes(w: seq<byte>, rest: seq<byte>)
    requires |w| <= ArrayMaxLength
    ensures ReadBytes(w + rest, |w|) == Success((w, rest))
  {
    assert (w + rest)[..|w|] == w && (w + rest)[|w|..] == rest;
  }

  /** Reading the pairs of `t` after the entries `acc` already stored gives
      `acc + t` back when all keys differ: each key is new, so each store
      appends. */
  lemma {:induction false} ReadWrittenPairs(t: Table, acc: Table, rest: seq<byte>)
    requires forall i | 0 <= i < |t| :: IsInt32(t[i].1)
    requires DistinctKeys(acc + t)
    ensures ReadTable(WritePairs(t) + rest, |t|, acc) == Success((acc + t, rest))
    decreases |t|
  {
    if t != [] {
      var (b, v) := t[0];
      var tail := WritePairs(t[1..]) + rest;
      calc {
        WritePairs(t) + rest;
        [b] + WriteInt32(v) + WritePairs(t[1..]) + rest;
        { AppendAssoc([b] + WriteInt32(v), WritePairs(t[1..]), rest);
          AppendAssoc([b], WriteInt32(v), tail); }
        [b] + (WriteInt32(v) + tail);
      }
      var s := [b] + (WriteInt32(v) + tail);
      assert s[1..] == WriteInt32(v) + tail;
      ReadWrittenInt32(v, tail);
      ReadTableStep(s, |t|, acc, b, WriteInt32(v) + tail, v, tail);
      NewKeyAppends(acc, t);
      MoveHead(acc, t);
      ReadWrittenPairs(t[1..], acc + [(b, v)], rest);
    } else {
      assert WritePairs(t) + rest == rest;
      assert acc + t == acc;
    }
  }

  /** One round of the table loop. */
  lemma ReadTableStep(s: seq<byte>, n: int, t: Table, b: byte, s1: seq<byte>, v: int, s2: seq<byte>)
    requires n > 0 && ReadByte(s) == Success((b, s1)) && ReadInt32(s1) == Success((v, s2))
    ensures ReadTable(s, n, t) == ReadTable(s2, n - 1, SetItem(t, b, v))
  {
  }

  /** In a table with distinct keys, storing the first of the remaining
      entries appends it. */
  lemma NewKeyAppends(acc: Table, t: Table)
    requires t != [] && DistinctKeys(acc + t)
    ensures SetItem(acc, t[0].0, t[0].1) == acc + [t[0]]
  {
    forall i | 0 <= i < |acc| ensures Keys(acc)[i] != t[0].0 {
      assert (acc + t)[i] == acc[i] && (acc + t)[|acc|] == t[0];
    }
  }

  lemma ReadWrittenBlock(w: seq<byte>, rest: seq<byte>)
    requires |w| <= ArrayMaxLength
    ensures ReadBlock(WriteBlock(w) + rest) == Success((w, rest))
  {
    AppendAssoc(WriteInt32(|w|), w, rest);
    ReadWrittenInt32(|w|, w + rest);
    ReadWrittenBytes(w, rest);
  }

  lemma ReadWrittenTable(t: Table, rest: seq<byte>)
    requires |t| <= Int32Max && forall i | 0 <= i < |t| :: IsInt32(t[i].1)
    requires DistinctKeys(t)
    ensures ReadTableBlock(WriteTable(t) + rest) == Success((t, rest))
  {
    AppendAssoc(WriteInt32(|t|), WritePairs(t), rest);
    ReadWrittenInt32(|t|, WritePairs(t) + rest);
    assert [] + t == t;
    ReadWrittenPairs(t, [], rest);
  }

  lemma ReadWrittenRecord(r: Record, rest: seq<byte>)
    requires Fits(r) && DistinctKeys(r.table)
    ensures ReadRecord(WriteRecord(r) + rest) == Success((r, rest))
  {
    var a, b, c := WriteBlock(r.path), WriteTable(r.table), WriteBlock(r.payload);
    calc {
      WriteRecord(r) + rest;
      a + b + c + rest;
      { AppendAssoc(a + b, c, rest); AppendAssoc(a, b, c + rest); }
      a + (b + (c + rest));
    }
    ReadWrittenBlock(r.path, b + (c + rest));
    ReadWrittenTable(r.table, c + rest);
    ReadWrittenBlock(r.payload, rest);
  }

  /** Records `Compress` can write and read back unchanged. */
  predicate Storable(rs: seq<Record>)
  {
    forall i | 0 <= i < |rs| :: Fits(rs[i]) && DistinctKeys(rs[i].table)
  }

  lemma StorableTail(rs: seq<Record>)
    requires rs != [] && Storable(rs)
    ensures Fits(rs[0]) && DistinctKeys(rs[0].table) && Storable(rs[1..])
  {
    forall i | 0 <= i < |rs| - 1 ensures Fits(rs[1..][i]) && DistinctKeys(rs[1..][i].table) {
      assert rs[1..][i] == rs[i + 1];
    }
  }

  lemma StorableCons(r: Record, rs: seq<Record>)
    requires Fits(r) && DistinctKeys(r.table) && Storable(rs)
    ensures Storable([r] + rs)
  {
    forall i | 0 <= i < |rs| + 1 ensures Fits(([r] + rs)[i]) && DistinctKeys(([r] + rs)[i].table) {
      if i > 0 {
        assert ([r] + rs)[i] == rs[i - 1];
      }
    }
  }

  /** The records `rs` in front of what reading the rest gives. */
  function PrependAll(rs: seq<Record>, r: Result<seq<Record>>): Result<seq<Record>>
  {
    match r
    case Failure(e) => Failure(e)
    case Success(more) => Success(rs + more)
  }

  lemma ReadRecordsCons(s: seq<byte>, n: int, rec: Record, next: seq<byte>)
    requires n > 0 && ReadRecord(s) == Success((rec, next))
    ensures ReadRecords(s, n) == PrependAll([rec], ReadRecords(next, n - 1))
  {
  }

  lemma {:induction false} ReadWrittenRecords(rs: seq<Record>, rest: seq<byte>)
    requires Storable(rs)
    ensures ReadRecords(WriteRecords(rs) + rest, |rs|) == Success(rs)
    decreases |rs|
  {
    if rs != [] {
      StorableTail(rs);
      var w, tail := WriteRecord(rs[0]), WriteRecords(rs[1..]) + rest;
      AppendAssoc(w, WriteRecords(rs[1..]), rest);
      ReadWrittenRecord(rs[0], tail);
      ReadWrittenRecords(rs[1..], rest);
      ReadRecordsCons(w + tail, |rs|, rs[0], tail);
      HeadTail(rs);
    } else {
      assert WriteRecords(rs) + rest == rest;
    }
  }

  /** `Decompress` reads back exactly the records `Compress` wrote, whatever
      follows them: same paths, same payloads, and the same tables in the
      same order, which is what lets the decoder rebuild the encoder's codes. */
  lemma ParseSerialize(rs: seq<Record>, rest: seq<byte>)
    requires |rs| <= Int32Max && Storable(rs)
    ensures Parse(Serialize(rs) + rest) == Success(rs)
  {
    AppendAssoc(WriteInt32(|rs|), WriteRecords(rs), rest);
    ReadWrittenInt32(|rs|, WriteRecords(rs) + rest);
    ReadWrittenRecords(rs, rest);
  }

  /** An archive whose writer stopped after the records `rs` of the `count`
      it announced (a cancelled `Compress`) holds those records complete, in
      order. */
  lemma TruncatedArchive(rs: seq<Record>, count: int)
    requires |rs| <= count <= Int32Max && Storable(rs)
    ensures ReadInt32(WriteInt32(count) + WriteRecords(rs)) == Success((count, WriteRecords(rs)))
    ensures ReadRecords(WriteRecords(rs), |rs|) == Success(rs)
  {
    ReadWrittenRecords(rs, []);
    assert WriteRecords(rs) + [] == WriteRecords(rs);
    ReadWrittenInt32(count, WriteRecords(rs));
  }

  /** A negative file count reads as an empty archive, and a negative table
      size as an empty table (the loops run no round). */
  lemma NegativeCounts(count: int, size: int, rest: seq<byte>)
    requires Int32Min <= count < 0 && Int32Min <= size < 0
    ensures Parse(WriteInt32(count) + rest) == Success([])
    ensures ReadTableBlock(WriteInt32(size) + rest) == Success(([], rest))
  {
    ReadWrittenInt32(count, rest);
    ReadWrittenInt32(size, rest);
  }

  // ---------------------------------------------------------------------------
  // Appending, as the write loops do
  // ---------------------------------------------------------------------------

  lemma {:induction false} WritePairsSnoc(t: Table, i: nat)
    requires i < |t| && forall k | 0 <= k < |t| :: IsInt32(t[k].1)
    ensures WritePairs(t[..i + 1]) == WritePairs(t[..i]) + [t[i].0] + WriteInt32(t[i].1)
    decreases i
  {
    if i == 0 {
      assert t[..1][1..] == [];
    } else {
      assert t[..i + 1][1..] == t[1..][..i];
      assert t[..i][1..] == t[1..][..i - 1];
      WritePairsSnoc(t[1..], i - 1);
      var w := WriteInt32(t[i].1);
      AppendAssoc([t[0].0] + WriteInt32(t[0].1), WritePairs(t[1..][..i - 1]) + [t[i].0], w);
      AppendAssoc([t[0].0] + WriteInt32(t[0].1), WritePairs(t[1..][..i - 1]), [t[i].0]);
    }
  }

  lemma {:induction false} WriteRecordsSnoc(rs: seq<Record>, r: Record)
    requires Storable(rs) && Fits(r) && DistinctKeys(r.table)
    ensures Storable(rs + [r])
    ensures WriteRecords(rs + [r]) == WriteRecords(rs) + WriteRecord(r)
  {
    if rs != [] {
      StorableTail(rs);
      assert (rs + [r])[1..] == rs[1..] + [r];
      WriteRecordsSnoc(rs[1..], r);
      AppendAssoc(WriteRecord(rs[0]), WriteRecords(rs[1..]), WriteRecord(r));
    } else {
      assert rs + [r] == [r] && [r][1..] == [];
      assert WriteRecords(rs) + WriteRecord(r) == WriteRecord(r) + WriteRecords([]);
    }
  }

  // ---------------------------------------------------------------------------
  // The table loops, as the processors run them
  // ---------------------------------------------------------------------------

  /** The frequency-table part of a record, written entry by entry as the
      `foreach` over the dictionary does. */
  method WriteTableEntries(t: Table) returns (w: seq<byte>)
    requires |t| <= Int32Max && forall i | 0 <= i < |t| :: IsInt32(t[i].1)
    ensures w == WriteTable(t)
  {
    w := WriteInt32(|t|);
    for i := 0 to |t|
      invariant w == WriteInt32(|t|) + WritePairs(t[..i])
    {
      WritePairsSnoc(t, i);
      var pair := [t[i].0] + WriteInt32(t[i].1);
      AppendAssoc(WriteInt32(|t|), WritePairs(t[..i]), pair);
      AppendAssoc(WritePairs(t[..i]), [t[i].0], WriteInt32(t[i].1));
      w := w + pair;
    }
    assert t[..|t|] == t;
  }

  /** The table loop of `Decompress`: `tableSize` rounds of `ReadByte`,
      `ReadInt32` and a store into a dictionary that starts empty. */
  method ReadTableEntries(s: seq<byte>, tableSize: int) returns (r: Result<(Table, seq<byte>)>)
    ensures r == ReadTable(s, tableSize, [])
  {
    var freqTable: Table := [];
    var reader := s;
    var j := 0;
    while j < tableSize
      invariant 0 <= j && (j <= tableSize || j == 0)
      invariant ReadTable(reader, tableSize - j, freqTable) == ReadTable(s, tableSize, [])
      decreases tableSize - j
    {
      var symbol := ReadByte(reader);
      if symbol.Failure? {
        return Failure(symbol.error);
      }
      var freq := ReadInt32(symbol.value.1);
      if freq.Failure? {
        return Failure(freq.error);
      }
      ReadTableStep(reader, tableSize - j, freqTable, symbol.value.0, symbol.value.1, freq.value.0, freq.value.1);
      freqTable := SetItem(freqTable, symbol.value.0, freq.value.0);
      reader := freq.value.1;
      j := j + 1;
    }
    r := Success((freqTable, reader));
  }
}
