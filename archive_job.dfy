/** The `Compress` and `Decompress` operations of HuffmanProcessor.cs and
    ShannonFanoProcessor.cs, which are the same loop around two different
    codecs: per file a cancellation checkpoint, the codec, a record written to
    (or read from) the archive, and a progress report. The file system, UTF-8
    conversion and `Path.Combine` are the `Host` parameter; the cancellation
    token is a predicate on the index of the file about to start. */
module ArchiveJob {
  import opened Base
  import opened Frequency
  import opened CompressedFiles
  import opened ArchiveFormat
  import opened FolderFiles
  import HuffmanTree
  import HuffmanCoding
  import HuffmanProperties
  import ShannonFano

  /** Which processor runs the job; the Huffman one with its queue's tie-break. */
  datatype Strategy = HuffmanStrategy(tb: HuffmanTree.TieBreak) | ShannonFanoStrategy

  /** What the processors reach outside themselves: reading a file
      (`File.ReadAllBytes`, `None` when it cannot be read), `Encoding.UTF8`
      both ways, and `Path.Combine`. */
  datatype Host = Host(
    readFile: string -> Option<ByteArray>,
    getBytes: string -> ByteArray,
    getString: seq<byte> -> string,
    combine: (string, string) -> string)

  /** `ProgressReport.FileName`; the percentage is left out. */
  datatype ProgressReport = ProgressReport(fileName: string)

  /** How a job ends: normally, by `OperationCanceledException`, or by another exception. */
  datatype Outcome = Completed | Cancelled | Failed(error: Error)

  // ---------------------------------------------------------------------------
  // The two codecs behind one loop
  // ---------------------------------------------------------------------------

  /** A codec's compressing half, on a file's contents. */
  type Encoder = seq<byte> -> Result<HuffmanCompressedFile>

  /** A codec's decoding half, on a table and a payload read back. */
  type Decoder = (Table, seq<byte>) -> Result<seq<byte>>

  /** The table an encoder stores is the byte tally of its input. */
  ghost predicate Tallies(encode: Encoder)
  {
    forall data :: encode(data).Success? ==> encode(data).value.frequencyTable == Tally(data)
  }

  /** `HuffmanCompress` / `ShannonFanoCompress`. */
  function EncoderOf(st: Strategy): (encode: Encoder)
    ensures Tallies(encode)
  {
    match st
    case HuffmanStrategy(tb) => data => HuffmanCoding.HuffmanEncode(data, tb)
    case ShannonFanoStrategy => data => ShannonFano.ShannonFanoEncode(data)
  }

  /** The decoding part of one `Decompress` round of either processor. */
  function DecoderOf(st: Strategy): Decoder
  {
    match st
    case HuffmanStrategy(tb) => (table, payload) => HuffmanCoding.HuffmanDecode(table, payload, tb)
    case ShannonFanoStrategy => (table, payload) => ShannonFano.ShannonFanoDecode(table, payload)
  }

  /** Contents each codec restores: the Huffman tree needs two distinct
      symbols to give every symbol a non-empty code, Shannon-Fano needs one. */
  predicate Decodable(st: Strategy, data: seq<byte>)
  {
    match st
    case HuffmanStrategy(_) => exists i, j | 0 <= i < |data| && 0 <= j < |data| :: data[i] != data[j]
    case ShannonFanoStrategy => data != []
  }

  /** Either codec gives back the file's bytes, followed by at most seven
      bytes decoded from the padding bits of the last payload byte. */
  lemma CodecRoundTrip(st: Strategy, data: ByteArray)
    requires Decodable(st, data)
    ensures EncoderOf(st)(data).Success?
    ensures var f := EncoderOf(st)(data).value;
      var out := DecoderOf(st)(f.frequencyTable, f.encodedData);
      && out.Success? && IsPrefix(data, out.value) && |out.value| <= |data| + 7
  {
    match st
    case HuffmanStrategy(tb) => HuffmanProperties.HuffmanRoundTrip(data, tb);
    case ShannonFanoStrategy => ShannonFano.ShannonFanoRoundTrip(data);
  }

  /** The codec as a step of the loop. The Shannon-Fano processor gets a fresh
      object here; the source reuses one, whose code table each call clears
      before it rebuilds it, so the result is the same. */
  method CompressWith(st: Strategy, data: seq<byte>) returns (r: Result<HuffmanCompressedFile>)
    ensures r == EncoderOf(st)(data)
  {
    match st {
      case HuffmanStrategy(tb) =>
        r := HuffmanCoding.HuffmanCompress(data, tb);
      case ShannonFanoStrategy =>
        var processor := new ShannonFano.ShannonFanoProcessor();
        r := processor.ShannonFanoCompress(data);
    }
  }

  method DecodeWith(st: Strategy, freqTable: Table, encodedData: seq<byte>) returns (r: Result<seq<byte>>)
    ensures r == DecoderOf(st)(freqTable, encodedData)
  {
    match st {
      case HuffmanStrategy(tb) =>
        r := HuffmanCoding.DecodePayload(freqTable, encodedData, tb);
      case ShannonFanoStrategy =>
        var processor := new ShannonFano.ShannonFanoProcessor();
        r := processor.DecodePayload(freqTable, encodedData);
    }
  }

  // ---------------------------------------------------------------------------
  // Compress
  // ---------------------------------------------------------------------------

  /** One round of `Compress` past its checkpoint for `e`: the record written
      and the report sent, or the exception that ends the job there. The
      file cannot be read, the codec fails, the payload outgrows a .NET
      array (`Array.MaxLength`), or the relative path is null. */
  function CompressEntry(encode: Encoder, e: FolderFileEntry, host: Host): (r: Result<(Record, ProgressReport)>)
    requires Tallies(encode)
    ensures r.Success? ==>
      && host.readFile(e.fullPath).Some? && e.relativePath.Some?
      && encode(host.readFile(e.fullPath).value).Success?
      && var f := encode(host.readFile(e.fullPath).value).value;
      && r.value.0 == Record(host.getBytes(e.relativePath.value), f.frequencyTable, f.encodedData)
      && r.value.1 == ProgressReport(e.relativePath.value)
      && r.value.0.table == Tally(host.readFile(e.fullPath).value)
      && Fits(r.value.0) && DistinctKeys(r.value.0.table)
    ensures r.Failure? <==>
      || host.readFile(e.fullPath).None?
      || encode(host.readFile(e.fullPath).value).Failure?
      || |encode(host.readFile(e.fullPath).value).value.encodedData| > ArrayMaxLength
      || e.relativePath.None?
    ensures var data := host.readFile(e.fullPath);
      (data.Some? && encode(data.value).Success? && |encode(data.value).value.encodedData| > ArrayMaxLength) ==>
        r == Failure(OutOfMemory)
  {
    match host.readFile(e.fullPath)
    case None => Failure(FileNotFound)
    case Some(data) =>
      match encode(data)
      case Failure(err) => Failure(err)
      case Success(compressed) =>
        if |compressed.encodedData| > ArrayMaxLength then Failure(OutOfMemory)
        else if e.relativePath.None? then Failure(ArgumentNull)
        else
          TallyFacts(data);
          TallySize(data);
          var rec := Record(host.getBytes(e.relativePath.value), compressed.frequencyTable, compressed.encodedData);
          Success((rec, ProgressReport(e.relativePath.value)))
  }

  /** Every round that succeeds writes a record the archive format can hold. */
  predicate Writable(rounds: seq<Result<(Record, ProgressReport)>>)
  {
    forall j | 0 <= j < |rounds| && rounds[j].Success? :: Fits(rounds[j].value.0) && DistinctKeys(rounds[j].value.0.table)
  }

  /** What each round of a job over `files` gives once it is reached. Every
      round depends only on its own file, so the whole job is determined by
      these results and the cancellation token. */
  function Rounds(encode: Encoder, files: seq<FolderFileEntry>, host: Host): (rounds: seq<Result<(Record, ProgressReport)>>)
    requires Tallies(encode)
    ensures |rounds| == |files| && Writable(rounds)
  {
    seq(|files|, j requires 0 <= j < |files| => CompressEntry(encode, files[j], host))
  }

  lemma RoundAt(encode: Encoder, files: seq<FolderFileEntry>, host: Host, j: nat)
    requires Tallies(encode) && j < |files|
    ensures Rounds(encode, files, host)[j] == CompressEntry(encode, files[j], host)
  {
  }

  /** The records written, the reports sent and how a `Compress` ended. */
  datatype Compression = Compression(records: seq<Record>, reports: seq<ProgressReport>, outcome: Outcome)

  /** `c` after one more finished file in front. */
  function Ahead(rec: Record, report: ProgressReport, c: Compression): Compression
  {
    Compression([rec] + c.records, [report] + c.reports, c.outcome)
  }

  /** `c` after the records and reports of earlier rounds. */
  function Behind(rs: seq<Record>, ps: seq<ProgressReport>, c: Compression): Compression
  {
    Compression(rs + c.records, ps + c.reports, c.outcome)
  }

  /** The rounds of the `foreach` from file `i` on: the loop test, the
      cancellation checkpoint, then the round itself. */
  function CompressFrom(rounds: seq<Result<(Record, ProgressReport)>>, i: nat, cancelled: nat -> bool): Compression
    requires i <= |rounds|
    decreases |rounds| - i, 2
  {
    if i == |rounds| then Compression([], [], Completed) else CompressCheckpoint(rounds, i, cancelled)
  }

  function CompressCheckpoint(rounds: seq<Result<(Record, ProgressReport)>>, i: nat, cancelled: nat -> bool): Compression
    requires i < |rounds|
    decreases |rounds| - i, 1
  {
    if cancelled(i) then Compression([], [], Cancelled) else CompressAt(rounds, i, cancelled)
  }

  /** Round `i` past its checkpoint, and the rounds after it. */
  function CompressAt(rounds: seq<Result<(Record, ProgressReport)>>, i: nat, cancelled: nat -> bool): Compression
    requires i < |rounds|
    decreases |rounds| - i, 0
  {
    match rounds[i]
    case Failure(e) => Compression([], [], Failed(e))
    case Success((rec, report)) => Ahead(rec, report, CompressFrom(rounds, i + 1, cancelled))
  }

  /** The `Compress` loop over `files` around the codec `encode`. */
  function CompressRun(encode: Encoder, files: seq<FolderFileEntry>, host: Host, cancelled: nat -> bool): Compression
    requires Tallies(encode)
  {
    CompressFrom(Rounds(encode, files, host), 0, cancelled)
  }

  /** `Compress` of the processor `st`: one record and one report per file
      finished, no more than there are files; the job completes exactly when
      every file is finished, and a cancellation is seen at the first file
      not finished. */
  function CompressJob(st: Strategy, files: seq<FolderFileEntry>, host: Host, cancelled: nat -> bool): (r: Compression)
    ensures |r.records| == |r.reports| <= |files|
    ensures r.outcome.Completed? <==> |r.reports| == |files|
    ensures r.outcome.Cancelled? ==> cancelled(|r.reports|)
  {
    CompressDone(EncoderOf(st), files, host, cancelled);
    CompressEnd(EncoderOf(st), files, host, cancelled);
    CompressRun(EncoderOf(st), files, host, cancelled)
  }

  lemma CompressFromAt(rounds: seq<Result<(Record, ProgressReport)>>, i: nat, cancelled: nat -> bool)
    requires i < |rounds| && !cancelled(i)
    ensures CompressFrom(rounds, i, cancelled) == CompressAt(rounds, i, cancelled)
  {
    assert CompressFrom(rounds, i, cancelled) == CompressCheckpoint(rounds, i, cancelled);
  }

  /** Every record a run writes is one the archive format can hold. */
  lemma {:induction false} CompressFromStorable(rounds: seq<Result<(Record, ProgressReport)>>, i: nat, cancelled: nat -> bool)
    requires i <= |rounds| && Writable(rounds)
    ensures Storable(CompressFrom(rounds, i, cancelled).records)
    decreases |rounds| - i
  {
    if i < |rounds| && !cancelled(i) {
      CompressFromAt(rounds, i, cancelled);
      if rounds[i].Success? {
        CompressFromStorable(rounds, i + 1, cancelled);
        StorableCons(rounds[i].value.0, CompressFrom(rounds, i + 1, cancelled).records);
      }
    } else if i < |rounds| {
      assert CompressFrom(rounds, i, cancelled) == CompressCheckpoint(rounds, i, cancelled);
    }
  }

  /** One round of `Compress` after its cancellation checkpoint: read the
      file, run the codec, and write the record field by field. The ghost
      `rec` is the record written; `cancelled` only names the rounds after. */
  method CompressOne(st: Strategy, files: seq<FolderFileEntry>, i: nat, host: Host, ghost cancelled: nat -> bool)
    returns (written: Result<seq<byte>>, report: ProgressReport, ghost rec: Record)
    requires i < |files| && !cancelled(i)
    ensures var rounds := Rounds(EncoderOf(st), files, host);
      && (written.Failure? ==> CompressFrom(rounds, i, cancelled) == Compression([], [], Failed(written.error)))
      && (written.Success? ==>
            && Fits(rec) && DistinctKeys(rec.table) && written.value == WriteRecord(rec)
            && CompressFrom(rounds, i, cancelled) == Ahead(rec, report, CompressFrom(rounds, i + 1, cancelled)))
  {
    ghost var rounds := Rounds(EncoderOf(st), files, host);
    CompressFromAt(rounds, i, cancelled);
    rec := Record([], [], []);
    report := ProgressReport([]);
    var entry := files[i];
    assert rounds[i] == CompressEntry(EncoderOf(st), entry, host);
    var data := host.readFile(entry.fullPath);
    if data.None? {
      return Failure(FileNotFound), report, rec;
    }
    var compressed := CompressWith(st, data.value);
    if compressed.Failure? {
      return Failure(compressed.error), report, rec;
    }
    if |compressed.value.encodedData| > ArrayMaxLength {
      return Failure(OutOfMemory), report, rec;
    }
    if entry.relativePath.None? {
      return Failure(ArgumentNull), report, rec;
    }
    var relativePathBytes := host.getBytes(entry.relativePath.value);
    var freqTable := compressed.value.frequencyTable;
    rec := Record(relativePathBytes, freqTable, compressed.value.encodedData);
    report := ProgressReport(entry.relativePath.value);
    assert rounds[i] == Success((rec, report));
    var tableBytes := WriteTableEntries(freqTable);
    written := Success(WriteBlock(relativePathBytes) + tableBytes + WriteBlock(compressed.value.encodedData));
  }

  lemma BehindAhead(rs: seq<Record>, ps: seq<ProgressReport>, rec: Record, p: ProgressReport, c: Compression)
    ensures Behind(rs, ps, Ahead(rec, p, c)) == Behind(rs + [rec], ps + [p], c)
  {
    AppendAssoc(rs, [rec], c.records);
    AppendAssoc(ps, [p], c.reports);
  }

  /** `Compress`: the archive is the file count followed by the records of
      the files finished; it stays on disk when the job stops early. */
  method Compress(st: Strategy, files: seq<FolderFileEntry>, host: Host, cancelled: nat -> bool)
    returns (archive: seq<byte>, reports: seq<ProgressReport>, outcome: Outcome)
    requires |files| <= Int32Max
    ensures var c := CompressJob(st, files, host, cancelled);
      && Storable(c.records)
      && archive == WriteInt32(|files|) + WriteRecords(c.records)
      && reports == c.reports && outcome == c.outcome
  {
    archive := WriteInt32(|files|);
    reports := [];
    ghost var records: seq<Record> := [];
    ghost var rounds := Rounds(EncoderOf(st), files, host);
    ghost var goal := CompressRun(EncoderOf(st), files, host, cancelled);
    var i := 0;
    while i < |files|
      invariant i <= |files| && Storable(records)
      invariant archive == WriteInt32(|files|) + WriteRecords(records)
      invariant Behind(records, reports, CompressFrom(rounds, i, cancelled)) == goal
    {
      if cancelled(i) {
        assert records + [] == records && reports + [] == reports;
        outcome := Cancelled;
        return;
      }
      var written: Result<seq<byte>>;
      var report: ProgressReport;
      ghost var rec: Record;
      written, report, rec := CompressOne(st, files, i, host, cancelled);
      if written.Failure? {
        assert records + [] == records && reports + [] == reports;
        outcome := Failed(written.error);
        return;
      }
      BehindAhead(records, reports, rec, report, CompressFrom(rounds, i + 1, cancelled));
      WriteRecordsSnoc(records, rec);
      AppendAssoc(WriteInt32(|files|), WriteRecords(records), WriteRecord(rec));
      archive := archive + written.value;
      reports := reports + [report];
      records := records + [rec];
      i := i + 1;
    }
    assert records + [] == records && reports + [] == reports;
    outcome := Completed;
  }

  /** What a run did, for every input: one record and one report per
      finished round, in order, and each finished round passed its
      cancellation checkpoint and gave that record and report. */
  lemma {:induction false} CompressFromDone(rounds: seq<Result<(Record, ProgressReport)>>, i: nat, cancelled: nat -> bool)
    requires i <= |rounds|
    ensures var c := CompressFrom(rounds, i, cancelled);
      && |c.records| == |c.reports| && i + |c.reports| <= |rounds|
      && forall j | i <= j < i + |c.reports| ::
           !cancelled(j) && rounds[j] == Success((c.records[j - i], c.reports[j - i]))
    decreases |rounds| - i
  {
    var c := CompressFrom(rounds, i, cancelled);
    if i < |rounds| && !cancelled(i) {
      CompressFromAt(rounds, i, cancelled);
      if rounds[i].Success? {
        var rest := CompressFrom(rounds, i + 1, cancelled);
        assert c == Ahead(rounds[i].value.0, rounds[i].value.1, rest);
        CompressFromDone(rounds, i + 1, cancelled);
        forall j | i <= j < i + |c.reports|
          ensures !cancelled(j) && rounds[j] == Success((c.records[j - i], c.reports[j - i]))
        {
          if j > i {
            assert c.records[j - i] == rest.records[j - (i + 1)];
            assert c.reports[j - i] == rest.reports[j - (i + 1)];
          }
        }
      }
    } else if i < |rounds| {
      assert c == CompressCheckpoint(rounds, i, cancelled);
    }
  }

  /** How a run ends, for every input, with `k` the first unfinished round:
      it completes exactly when every round is done, a cancellation stops it
      at the checkpoint of round `k`, and an exception comes from round `k`. */
  lemma {:induction false} CompressFromEnd(rounds: seq<Result<(Record, ProgressReport)>>, i: nat, cancelled: nat -> bool)
    requires i <= |rounds|
    ensures var c := CompressFrom(rounds, i, cancelled);
      var k := i + |c.reports|;
      && k <= |rounds|
      && (c.outcome.Completed? <==> k == |rounds|)
      && (c.outcome.Cancelled? ==> k < |rounds| && cancelled(k))
      && (c.outcome.Failed? ==> k < |rounds| && !cancelled(k) && rounds[k] == Failure(c.outcome.error))
    decreases |rounds| - i
  {
    if i < |rounds| && !cancelled(i) {
      CompressFromAt(rounds, i, cancelled);
      if rounds[i].Success? {
        CompressFromEnd(rounds, i + 1, cancelled);
      }
    } else if i < |rounds| {
      assert CompressFrom(rounds, i, cancelled) == CompressCheckpoint(rounds, i, cancelled);
    }
  }

  /** What a whole `Compress` loop did: the records and reports of files
      `0 .. k-1` for some `k`, each the one that file's round gives, and
      every one of those files passed its cancellation checkpoint. */
  lemma CompressDone(encode: Encoder, files: seq<FolderFileEntry>, host: Host, cancelled: nat -> bool)
    requires Tallies(encode)
    ensures var c := CompressRun(encode, files, host, cancelled);
      && |c.records| == |c.reports| <= |files|
      && forall j | 0 <= j < |c.reports| ::
           !cancelled(j) && CompressEntry(encode, files[j], host) == Success((c.records[j], c.reports[j]))
  {
    var rounds := Rounds(encode, files, host);
    CompressFromDone(rounds, 0, cancelled);
    var c := CompressRun(encode, files, host, cancelled);
    forall j | 0 <= j < |c.reports|
      ensures CompressEntry(encode, files[j], host) == Success((c.records[j], c.reports[j]))
    {
      RoundAt(encode, files, host, j);
      assert rounds[j - 0] == rounds[j];
    }
  }

  /** How a whole `Compress` loop ended, with `k` files finished: it
      completed exactly when `k` is the number of files, a cancellation was
      observed at the checkpoint of file `k`, and an exception came from
      file `k`. */
  lemma CompressEnd(encode: Encoder, files: seq<FolderFileEntry>, host: Host, cancelled: nat -> bool)
    requires Tallies(encode)
    ensures var c := CompressRun(encode, files, host, cancelled);
      && (c.outcome.Completed? <==> |c.reports| == |files|)
      && (c.outcome.Cancelled? ==> |c.reports| < |files| && cancelled(|c.reports|))
      && (c.outcome.Failed? ==>
            |c.reports| < |files| && !cancelled(|c.reports|)
            && CompressEntry(encode, files[|c.reports|], host) == Failure(c.outcome.error))
  {
    var rounds := Rounds(encode, files, host);
    CompressFromEnd(rounds, 0, cancelled);
    var c := CompressRun(encode, files, host, cancelled);
    if c.outcome.Failed? {
      RoundAt(encode, files, host, |c.reports|);
    }
  }

  // ---------------------------------------------------------------------------
  // Decompress
  // ---------------------------------------------------------------------------

  /** What `Decompress` hands back: the entries built, the reports sent, and
      how it ended. */
  datatype Extraction = Extraction(entries: seq<FolderFileEntry>, reports: seq<ProgressReport>, outcome: Outcome)

  /** `x` after the entries `es` and reports `ps` of earlier rounds. */
  function After(es: seq<FolderFileEntry>, ps: seq<ProgressReport>, x: Extraction): Extraction
  {
    Extraction(es + x.entries, ps + x.reports, x.outcome)
  }

  /** The entry one round builds from a record it read: the path under
      `outputBase`, the relative path and the decoded bytes. */
  function ExtractEntry(decode: Decoder, rec: Record, outputBase: string, host: Host): (r: Result<FolderFileEntry>)
    ensures r.Success? ==>
      && decode(rec.table, rec.payload).Success?
      && r.value == FolderFileEntry(host.combine(outputBase, host.getString(rec.path)),
                                    Some(host.getString(rec.path)), Some(decode(rec.table, rec.payload).value))
    ensures r.Failure? ==> decode(rec.table, rec.payload) == Failure(r.error)
  {
    var relativePath := host.getString(rec.path);
    match decode(rec.table, rec.payload)
    case Failure(e) => Failure(e)
    case Success(output) =>
      Success(FolderFileEntry(host.combine(outputBase, relativePath), Some(relativePath), Some(output)))
  }

  /** One round of `Decompress` after its cancellation checkpoint, on the
      archive bytes `s` not yet read: the entry built, the report sent, and
      the bytes after the record. */
  function ExtractRound(decode: Decoder, s: seq<byte>, outputBase: string, host: Host)
    : (r: Result<(FolderFileEntry, ProgressReport, seq<byte>)>)
    ensures r.Success? ==>
      && |r.value.2| < |s|
      && r.value.0.relativePath == Some(r.value.1.fileName) && r.value.0.data.Some?
  {
    match ReadRecord(s)
    case Failure(e) => Failure(e)
    case Success((rec, rest)) =>
      match ExtractEntry(decode, rec, outputBase, host)
      case Failure(e) => Failure(e)
      case Success(entry) => Success((entry, ProgressReport(host.getString(rec.path)), rest))
  }

  /** The round as a value, what the job's loop repeats. */
  function Reader(decode: Decoder, outputBase: string, host: Host): seq<byte> -> Result<(FolderFileEntry, ProgressReport, seq<byte>)>
  {
    s => ExtractRound(decode, s, outputBase, host)
  }

  /** Rounds `i` up to the file count `n` of the `for` loop, reading from
      `s`: the loop test, the cancellation checkpoint, then `round` itself. */
  function ExtractFrom(round: seq<byte> -> Result<(FolderFileEntry, ProgressReport, seq<byte>)>,
                       s: seq<byte>, i: nat, n: int, cancelled: nat -> bool): Extraction
    decreases n - i, 2
  {
    if n <= i then Extraction([], [], Completed) else ExtractCheckpoint(round, s, i, n, cancelled)
  }

  function ExtractCheckpoint(round: seq<byte> -> Result<(FolderFileEntry, ProgressReport, seq<byte>)>,
                             s: seq<byte>, i: nat, n: int, cancelled: nat -> bool): Extraction
    requires i < n
    decreases n - i, 1
  {
    if cancelled(i) then Extraction([], [], Cancelled) else ExtractAt(round, s, i, n, cancelled)
  }

  /** Round `i` past its checkpoint, and the rounds after it. */
  function ExtractAt(round: seq<byte> -> Result<(FolderFileEntry, ProgressReport, seq<byte>)>,
                     s: seq<byte>, i: nat, n: int, cancelled: nat -> bool): Extraction
    requires i < n
    decreases n - i, 0
  {
    match round(s)
    case Failure(e) => Extraction([], [], Failed(e))
    case Success((entry, report, rest)) => After([entry], [report], ExtractFrom(round, rest, i + 1, n, cancelled))
  }

  /** `Decompress` on the bytes of an archive: entries and reports come in
      pairs; an archive too short for its file count fails at once with
      `EndOfStreamException`; a cancellation is seen at the first file not
      finished. */
  function Extract(st: Strategy, archive: seq<byte>, outputBase: string, host: Host, cancelled: nat -> bool): (r: Extraction)
    ensures |r.entries| == |r.reports|
    ensures |archive| < 4 ==> r == Extraction([], [], Failed(EndOfStream))
    ensures r.outcome.Cancelled? ==> cancelled(|r.reports|)
  {
    match ReadInt32(archive)
    case Failure(e) => Extraction([], [], Failed(e))
    case Success((fileCount, rest)) =>
      var round := Reader(DecoderOf(st), outputBase, host);
      ReaderLabelled(DecoderOf(st), outputBase, host);
      ExtractFromFacts(round, rest, 0, fileCount, cancelled);
      ExtractFrom(round, rest, 0, fileCount, cancelled)
  }

  /** The reads of one round: path length and bytes, table size and entries,
      payload length and bytes. */
  method ReadRecordFields(s: seq<byte>) returns (r: Result<(Record, seq<byte>)>)
    ensures r == ReadRecord(s)
  {
    var pathLength := ReadInt32(s);
    if pathLength.Failure? {
      return Failure(pathLength.error);
    }
    var pathBytes := ReadBytes(pathLength.value.1, pathLength.value.0);
    if pathBytes.Failure? {
      return Failure(pathBytes.error);
    }
    var tableSize := ReadInt32(pathBytes.value.1);
    if tableSize.Failure? {
      return Failure(tableSize.error);
    }
    var freqTable := ReadTableEntries(tableSize.value.1, tableSize.value.0);
    if freqTable.Failure? {
      return Failure(freqTable.error);
    }
    var encodedLength := ReadInt32(freqTable.value.1);
    if encodedLength.Failure? {
      return Failure(encodedLength.error);
    }
    var encodedData := ReadBytes(encodedLength.value.1, encodedLength.value.0);
    if encodedData.Failure? {
      return Failure(encodedData.error);
    }
    r := Success((Record(pathBytes.value.0, freqTable.value.0, encodedData.value.0), encodedData.value.1));
  }

  lemma ExtractFromAt(round: seq<byte> -> Result<(FolderFileEntry, ProgressReport, seq<byte>)>,
                      s: seq<byte>, i: nat, n: int, cancelled: nat -> bool)
    requires i < n && !cancelled(i)
    ensures ExtractFrom(round, s, i, n, cancelled) == ExtractAt(round, s, i, n, cancelled)
  {
    assert ExtractFrom(round, s, i, n, cancelled) == ExtractCheckpoint(round, s, i, n, cancelled);
  }

  /** One round after its checkpoint: read the record, decode its payload,
      build the entry; `i`, `n` and `cancelled` only name the rounds after. */
  method ExtractOne(st: Strategy, reader: seq<byte>, outputBase: string, host: Host, ghost i: nat, ghost n: int, ghost cancelled: nat -> bool)
    returns (r: Result<(FolderFileEntry, ProgressReport, seq<byte>)>)
    requires i < n && !cancelled(i)
    ensures var round := Reader(DecoderOf(st), outputBase, host);
      && (r.Failure? ==> ExtractFrom(round, reader, i, n, cancelled) == Extraction([], [], Failed(r.error)))
      && (r.Success? ==>
            ExtractFrom(round, reader, i, n, cancelled)
            == After([r.value.0], [r.value.1], ExtractFrom(round, r.value.2, i + 1, n, cancelled)))
  {
    ghost var round := Reader(DecoderOf(st), outputBase, host);
    ExtractFromAt(round, reader, i, n, cancelled);
    assert round(reader) == ExtractRound(DecoderOf(st), reader, outputBase, host);
    var rec := ReadRecordFields(reader);
    if rec.Failure? {
      return Failure(rec.error);
    }
    var relativePath := host.getString(rec.value.0.path);
    var output := DecodeWith(st, rec.value.0.table, rec.value.0.payload);
    if output.Failure? {
      return Failure(output.error);
    }
    var fullPath := host.combine(outputBase, relativePath);
    r := Success((FolderFileEntry(fullPath, Some(relativePath), Some(output.value)), ProgressReport(relativePath), rec.value.1));
  }

  lemma AfterAfter(es: seq<FolderFileEntry>, ps: seq<ProgressReport>, e: FolderFileEntry, p: ProgressReport, x: Extraction)
    ensures After(es, ps, After([e], [p], x)) == After(es + [e], ps + [p], x)
  {
    AppendAssoc(es, [e], x.entries);
    AppendAssoc(ps, [p], x.reports);
  }

  /** `Decompress`. */
  method Decompress(st: Strategy, archive: seq<byte>, outputBase: string, host: Host, cancelled: nat -> bool)
    returns (entries: seq<FolderFileEntry>, reports: seq<ProgressReport>, outcome: Outcome)
    ensures Extraction(entries, reports, outcome) == Extract(st, archive, outputBase, host, cancelled)
  {
    entries, reports := [], [];
    var header := ReadInt32(archive);
    if header.Failure? {
      outcome := Failed(header.error);
      return;
    }
    var fileCount := header.value.0;
    var reader := header.value.1;
    ghost var round := Reader(DecoderOf(st), outputBase, host);
    ghost var goal := Extract(st, archive, outputBase, host, cancelled);
    var i := 0;
    while i < fileCount
      invariant 0 <= i && (i <= fileCount || i == 0)
      invariant After(entries, reports, ExtractFrom(round, reader, i, fileCount, cancelled)) == goal
      decreases fileCount - i
    {
      if cancelled(i) {
        assert entries + [] == entries && reports + [] == reports;
        outcome := Cancelled;
        return;
      }
      var result := ExtractOne(st, reader, outputBase, host, i, fileCount, cancelled);
      if result.Failure? {
        assert entries + [] == entries && reports + [] == reports;
        outcome := Failed(result.error);
        return;
      }
      var (entry, report, rest) := result.value;
      AfterAfter(entries, reports, entry, report, ExtractFrom(round, rest, i + 1, fileCount, cancelled));
      entries := entries + [entry];
      reports := reports + [report];
      reader := rest;
      i := i + 1;
    }
    assert entries + [] == entries && reports + [] == reports;
    outcome := Completed;
  }

  // ---------------------------------------------------------------------------
  // What a Decompress run gives back
  // ---------------------------------------------------------------------------

  /** Every entry a round builds carries decoded bytes and the relative path
      its report names. */
  ghost predicate Labelled(round: seq<byte> -> Result<(FolderFileEntry, ProgressReport, seq<byte>)>)
  {
    forall s :: round(s).Success? ==>
      round(s).value.0.relativePath == Some(round(s).value.1.fileName) && round(s).value.0.data.Some?
  }

  lemma ReaderLabelled(decode: Decoder, outputBase: string, host: Host)
    ensures Labelled(Reader(decode, outputBase, host))
  {
  }

  /** What a run from round `i` to the file count `n` did, for every input:
      one entry and one report per finished round, each entry named by its
      report; every finished round passed its checkpoint; it completes
      exactly when all `n - i` rounds finish, and a cancellation or an
      exception stops it at the first round not finished. */
  lemma {:induction false} ExtractFromFacts(round: seq<byte> -> Result<(FolderFileEntry, ProgressReport, seq<byte>)>,
                                            s: seq<byte>, i: nat, n: int, cancelled: nat -> bool)
    requires Labelled(round)
    ensures var x := ExtractFrom(round, s, i, n, cancelled);
      && |x.entries| == |x.reports|
      && (forall j | 0 <= j < |x.reports| ::
            x.entries[j].relativePath == Some(x.reports[j].fileName) && x.entries[j].data.Some?)
      && (forall j | i <= j < i + |x.reports| :: !cancelled(j))
      && (n <= i ==> x == Extraction([], [], Completed))
      && (i < n ==> i + |x.reports| <= n)
      && (x.outcome.Completed? <==> n <= i + |x.reports|)
      && (x.outcome.Cancelled? ==> cancelled(i + |x.reports|))
      && (x.outcome.Failed? ==> !cancelled(i + |x.reports|))
    decreases n - i
  {
    var x := ExtractFrom(round, s, i, n, cancelled);
    if i < n && !cancelled(i) {
      ExtractFromAt(round, s, i, n, cancelled);
      if round(s).Success? {
        var (entry, report, rest) := round(s).value;
        var y := ExtractFrom(round, rest, i + 1, n, cancelled);
        assert x == After([entry], [report], y);
        ExtractFromFacts(round, rest, i + 1, n, cancelled);
        forall j | 0 <= j < |x.reports|
          ensures x.entries[j].relativePath == Some(x.reports[j].fileName) && x.entries[j].data.Some?
        {
          if j == 0 {
            assert x.entries[0] == entry && x.reports[0] == report;
          } else {
            assert x.entries[j] == y.entries[j - 1] && x.reports[j] == y.reports[j - 1];
          }
        }
      }
    } else if i < n {
      assert x == ExtractCheckpoint(round, s, i, n, cancelled);
    }
  }

  /** The same for a whole `Decompress`: an archive too short for its file
      count fails at once; otherwise entries and reports come in pairs, each
      entry named by its report, and a cancellation observed at the
      checkpoint of file `k` leaves exactly the entries of files `0 .. k-1`. */
  lemma ExtractOutcome(st: Strategy, archive: seq<byte>, outputBase: string, host: Host, cancelled: nat -> bool)
    ensures var x := Extract(st, archive, outputBase, host, cancelled);
      && |x.entries| == |x.reports|
      && (forall j | 0 <= j < |x.reports| ::
            !cancelled(j) && x.entries[j].relativePath == Some(x.reports[j].fileName) && x.entries[j].data.Some?)
      && (|archive| < 4 ==> x == Extraction([], [], Failed(EndOfStream)))
      && (4 <= |archive| ==>
            var n := ReadInt32(archive).value.0;
            && |x.reports| <= (if n < 0 then 0 else n)
            && (x.outcome.Completed? <==> n <= |x.reports|))
      && (x.outcome.Cancelled? ==> cancelled(|x.reports|))
  {
    if 4 <= |archive| {
      var (n, rest) := ReadInt32(archive).value;
      var round := Reader(DecoderOf(st), outputBase, host);
      ReaderLabelled(DecoderOf(st), outputBase, host);
      ExtractFromFacts(round, rest, 0, n, cancelled);
      var x := ExtractFrom(round, rest, 0, n, cancelled);
      assert Extract(st, archive, outputBase, host, cancelled) == x;
      assert 0 + |x.reports| == |x.reports|;
    }
  }

  /** The first file from `i` on whose checkpoint observes the cancellation,
      or `n` when none before `n` does. */
  function FirstCancel(cancelled: nat -> bool, i: nat, n: nat): (k: nat)
    requires i <= n
    ensures i <= k <= n && (k < n ==> cancelled(k))
    ensures forall j | i <= j < k :: !cancelled(j)
    decreases n - i
  {
    if i == n || cancelled(i) then i else FirstCancel(cancelled, i + 1, n)
  }

  /** Byte blocks one after another. */
  function Concat(ws: seq<seq<byte>>): seq<byte>
  {
    if ws == [] then [] else ws[0] + Concat(ws[1..])
  }

  /** The records as the blocks `WriteRecords` puts one after another. */
  function Blocks(rs: seq<Record>): (ws: seq<seq<byte>>)
    requires Storable(rs)
    ensures |ws| == |rs| && forall j | 0 <= j < |rs| :: ws[j] == WriteRecord(rs[j])
  {
    seq(|rs|, j requires 0 <= j < |rs| => WriteRecord(rs[j]))
  }

  lemma {:induction false} WriteRecordsBlocks(rs: seq<Record>)
    requires Storable(rs)
    ensures WriteRecords(rs) == Concat(Blocks(rs))
    decreases |rs|
  {
    if rs != [] {
      StorableTail(rs);
      WriteRecordsBlocks(rs[1..]);
      assert Blocks(rs)[1..] == Blocks(rs[1..]);
    }
  }

  /** `round` reads each block of `ws` back, from any stream that starts
      with it, as the entry and report of `outs`, and stops right after it. */
  ghost predicate ReadsBack(round: seq<byte> -> Result<(FolderFileEntry, ProgressReport, seq<byte>)>,
                            ws: seq<seq<byte>>, outs: seq<(FolderFileEntry, ProgressReport)>)
  {
    && |outs| == |ws|
    && forall j, t | 0 <= j < |ws| :: round(ws[j] + t) == Success((outs[j].0, outs[j].1, t))
  }

  lemma ReadsBackTail(round: seq<byte> -> Result<(FolderFileEntry, ProgressReport, seq<byte>)>,
                      ws: seq<seq<byte>>, outs: seq<(FolderFileEntry, ProgressReport)>)
    requires ws != [] && ReadsBack(round, ws, outs)
    ensures ReadsBack(round, ws[1..], outs[1..])
  {
    forall j, t | 0 <= j < |ws[1..]|
      ensures round(ws[1..][j] + t) == Success((outs[1..][j].0, outs[1..][j].1, t))
    {
      assert ws[1..][j] == ws[j + 1];
    }
  }

  /** Reading back blocks written one after another: every round up to the
      first cancellation rebuilds the entry of its block, and the run
      completes when none is cancelled. */
  lemma {:induction false} ExtractWritten(round: seq<byte> -> Result<(FolderFileEntry, ProgressReport, seq<byte>)>,
                                          ws: seq<seq<byte>>, outs: seq<(FolderFileEntry, ProgressReport)>,
                                          rest: seq<byte>, i: nat, cancelled: nat -> bool)
    requires ReadsBack(round, ws, outs)
    ensures var x := ExtractFrom(round, Concat(ws) + rest, i, i + |ws|, cancelled);
      var k := FirstCancel(cancelled, i, i + |ws|);
      && |x.entries| == |x.reports| == k - i
      && (forall j | 0 <= j < k - i :: x.entries[j] == outs[j].0 && x.reports[j] == outs[j].1)
      && x.outcome == (if k == i + |ws| then Completed else Cancelled)
    decreases |ws|
  {
    var n := i + |ws|;
    var x := ExtractFrom(round, Concat(ws) + rest, i, n, cancelled);
    if ws != [] && !cancelled(i) {
      var tail := Concat(ws[1..]) + rest;
      AppendAssoc(ws[0], Concat(ws[1..]), rest);
      assert Concat(ws) + rest == ws[0] + tail;
      assert round(ws[0] + tail) == Success((outs[0].0, outs[0].1, tail));
      ExtractFromAt(round, Concat(ws) + rest, i, n, cancelled);
      var y := ExtractFrom(round, tail, i + 1, n, cancelled);
      assert x == After([outs[0].0], [outs[0].1], y);
      ReadsBackTail(round, ws, outs);
      assert n == (i + 1) + |ws[1..]|;
      ExtractWritten(round, ws[1..], outs[1..], rest, i + 1, cancelled);
      forall j | 0 <= j < FirstCancel(cancelled, i, n) - i
        ensures x.entries[j] == outs[j].0 && x.reports[j] == outs[j].1
      {
        if j > 0 {
          assert x.entries[j] == y.entries[j - 1] && x.reports[j] == y.reports[j - 1];
        }
      }
    } else if ws != [] {
      assert x == ExtractCheckpoint(round, Concat(ws) + rest, i, n, cancelled);
    }
  }

  /** The token of a job nobody cancels. */
  function NeverCancelled(k: nat): bool
  {
    false
  }

  /** A round reads back any record the archive format can hold whose
      payload decodes: the entry built from it, the report naming its path,
      and the bytes right after it. */
  lemma ExtractWrittenRecord(decode: Decoder, rec: Record, rest: seq<byte>, outputBase: string, host: Host)
    requires Fits(rec) && DistinctKeys(rec.table) && ExtractEntry(decode, rec, outputBase, host).Success?
    ensures ExtractRound(decode, WriteRecord(rec) + rest, outputBase, host)
      == Success((ExtractEntry(decode, rec, outputBase, host).value, ProgressReport(host.getString(rec.path)), rest))
  {
    ReadWrittenRecord(rec, rest);
  }

  /** One file through both loops: the record its `Compress` round writes
      becomes, in a `Decompress` round of the same processor, an entry under
      `outputBase` with the relative path after its trip through UTF-8 and
      the file's bytes followed by at most seven padding bytes. */
  lemma EntryRestores(st: Strategy, e: FolderFileEntry, host: Host, outputBase: string)
    requires CompressEntry(EncoderOf(st), e, host).Success?
    requires Decodable(st, host.readFile(e.fullPath).value)
    ensures var (rec, report) := CompressEntry(EncoderOf(st), e, host).value;
      var data := host.readFile(e.fullPath).value;
      var name := host.getString(host.getBytes(e.relativePath.value));
      && report == ProgressReport(e.relativePath.value)
      && ExtractEntry(DecoderOf(st), rec, outputBase, host).Success?
      && var entry := ExtractEntry(DecoderOf(st), rec, outputBase, host).value;
      && entry.fullPath == host.combine(outputBase, name) && entry.relativePath == Some(name)
      && entry.data.Some? && IsPrefix(data, entry.data.value) && |entry.data.value| <= |data| + 7
  {
    CodecRoundTrip(st, host.readFile(e.fullPath).value);
  }

  /** A `Compress` loop in which every round succeeds and nothing is
      cancelled completes, with each file's record in file order. */
  lemma CompressCompletes(encode: Encoder, files: seq<FolderFileEntry>, host: Host)
    requires Tallies(encode)
    requires forall j | 0 <= j < |files| :: CompressEntry(encode, files[j], host).Success?
    ensures var c := CompressRun(encode, files, host, NeverCancelled);
      && c.outcome == Completed && |c.records| == |files| && Storable(c.records)
      && forall j | 0 <= j < |files| :: CompressEntry(encode, files[j], host).value.0 == c.records[j]
  {
    CompressDone(encode, files, host, NeverCancelled);
    CompressEnd(encode, files, host, NeverCancelled);
    CompressFromStorable(Rounds(encode, files, host), 0, NeverCancelled);
  }

  /** The records of those files are read back one by one as the entries
      `outs`, each the file restored under `outputBase`. */
  lemma ArchiveReadsBack(st: Strategy, files: seq<FolderFileEntry>, host: Host, outputBase: string, rs: seq<Record>)
    returns (outs: seq<(FolderFileEntry, ProgressReport)>)
    requires forall j | 0 <= j < |files| ::
      CompressEntry(EncoderOf(st), files[j], host).Success? && Decodable(st, host.readFile(files[j].fullPath).value)
    requires |rs| == |files| && Storable(rs)
    requires forall j | 0 <= j < |files| :: CompressEntry(EncoderOf(st), files[j], host).value.0 == rs[j]
    ensures ReadsBack(Reader(DecoderOf(st), outputBase, host), Blocks(rs), outs)
    ensures forall j | 0 <= j < |files| ::
      && CompressEntry(EncoderOf(st), files[j], host).Success?
      && var data := host.readFile(files[j].fullPath).value;
      var name := host.getString(host.getBytes(files[j].relativePath.value));
      && outs[j].0.fullPath == host.combine(outputBase, name)
      && outs[j].0.relativePath == Some(name)
      && outs[j].0.data.Some? && IsPrefix(data, outs[j].0.data.value)
      && |outs[j].0.data.value| <= |data| + 7
  {
    var decode := DecoderOf(st);
    forall j | 0 <= j < |files|
      ensures ExtractEntry(decode, rs[j], outputBase, host).Success?
      ensures var data := host.readFile(files[j].fullPath).value;
        var name := host.getString(host.getBytes(files[j].relativePath.value));
        var entry := ExtractEntry(decode, rs[j], outputBase, host).value;
        && entry.fullPath == host.combine(outputBase, name)
        && entry.relativePath == Some(name)
        && entry.data.Some? && IsPrefix(data, entry.data.value)
        && |entry.data.value| <= |data| + 7
    {
      EntryRestores(st, files[j], host, outputBase);
    }
    outs := seq(|rs|, j requires 0 <= j < |rs| =>
      (ExtractEntry(decode, rs[j], outputBase, host).value, ProgressReport(host.getString(rs[j].path))));
    forall j, t | 0 <= j < |rs|
      ensures Reader(decode, outputBase, host)(Blocks(rs)[j] + t) == Success((outs[j].0, outs[j].1, t))
    {
      ExtractWrittenRecord(decode, rs[j], t, outputBase, host);
    }
  }

  /** An archive read back: when every file's round succeeds and its
      contents are ones the codec restores, `Compress` completes, and
      `Decompress` of the same processor on that archive completes with one
      entry per file, in order, each with the file's relative path after
      its trip through UTF-8, placed under `outputBase`, and holding the
      file's bytes followed by at most seven padding bytes. */
  lemma ArchiveRoundTrip(st: Strategy, files: seq<FolderFileEntry>, host: Host, outputBase: string)
    requires |files| <= Int32Max
    requires forall j | 0 <= j < |files| ::
      CompressEntry(EncoderOf(st), files[j], host).Success? && Decodable(st, host.readFile(files[j].fullPath).value)
    ensures var c := CompressJob(st, files, host, NeverCancelled);
      && c.outcome == Completed && |c.records| == |files| && Storable(c.records)
      && var x := Extract(st, Serialize(c.records), outputBase, host, NeverCancelled);
      && x.outcome == Completed && |x.entries| == |files|
      && forall j | 0 <= j < |files| ::
           var data := host.readFile(files[j].fullPath).value;
           var name := host.getString(host.getBytes(files[j].relativePath.value));
           && x.entries[j].fullPath == host.combine(outputBase, name)
           && x.entries[j].relativePath == Some(name)
           && x.entries[j].data.Some? && IsPrefix(data, x.entries[j].data.value)
           && |x.entries[j].data.value| <= |data| + 7
  {
    CompressCompletes(EncoderOf(st), files, host);
    var rs := CompressJob(st, files, host, NeverCancelled).records;
    var outs := ArchiveReadsBack(st, files, host, outputBase, rs);
    var round := Reader(DecoderOf(st), outputBase, host);
    ExtractWritten(round, Blocks(rs), outs, [], 0, NeverCancelled);
    ExtractSerialized(st, rs, outputBase, host, NeverCancelled);
  }

  /** `Decompress` on a serialized archive reads its file count back and runs
      the record loop over the records' blocks. */
  lemma ExtractSerialized(st: Strategy, rs: seq<Record>, outputBase: string, host: Host, cancelled: nat -> bool)
    requires |rs| <= Int32Max && Storable(rs)
    ensures Extract(st, Serialize(rs), outputBase, host, cancelled)
         == ExtractFrom(Reader(DecoderOf(st), outputBase, host), Concat(Blocks(rs)) + [], 0, 0 + |rs|, cancelled)
  {
    var body := Concat(Blocks(rs)) + [];
    SerializedBlocks(rs);
    ReadWrittenInt32(|rs|, body);
    ExtractHeader(st, Serialize(rs), |rs|, body, outputBase, host, cancelled);
  }

  /** A serialized archive is its file count followed by its records' blocks. */
  lemma SerializedBlocks(rs: seq<Record>)
    requires |rs| <= Int32Max && Storable(rs)
    ensures Serialize(rs) == WriteInt32(|rs|) + (Concat(Blocks(rs)) + [])
  {
    WriteRecordsBlocks(rs);
    assert Concat(Blocks(rs)) + [] == Concat(Blocks(rs));
  }

  /** Once the file count `n` is read, `Decompress` runs the record loop over
      what follows it. */
  lemma ExtractHeader(st: Strategy, archive: seq<byte>, n: int, rest: seq<byte>, outputBase: string, host: Host,
                      cancelled: nat -> bool)
    requires ReadInt32(archive) == Success((n, rest))
    ensures Extract(st, archive, outputBase, host, cancelled)
         == ExtractFrom(Reader(DecoderOf(st), outputBase, host), rest, 0, n, cancelled)
  {
  }
}
