/** The Shannon-Fano strategy of Huffman/ShannonFano/ShannonFanoProcessor.cs:
    the code table built into the `codeTable` field, the encode loop of
    `ShannonFanoCompress` and the greedy decode loop of `Decompress`. */
module ShannonFano {
  import opened Base
  import opened BitStream
  import opened Frequency
  import opened PrefixCodes
  import opened ShannonFanoCodes
  import opened CompressedFiles

  /** The codes both directions build from a frequency table: the table sorted
      by descending count, then `BuildCodeTable(sorted, 0, sorted.Count - 1, "")`. */
  function TableCodes(table: Table): Result<map<byte, string>>
  {
    RootCodes(SortByCountDesc(table))
  }

  /** What `ShannonFanoCompress` produces from a file's bytes: the file's
      frequency table with the packed code bits. An empty file throws: the
      build's first leaf reads index 0 of the empty sorted list. */
  function ShannonFanoEncode(data: seq<byte>): (r: Result<HuffmanCompressedFile>)
    ensures r.Success? ==> r.value.frequencyTable == Tally(data)
    ensures data == [] ==> r == Failure(ArgumentOutOfRange)
    ensures r.Failure? ==>
      r.error == ArgumentOutOfRange || r.error == Overflow || r.error == StackOverflow || r.error == KeyNotFound
  {
    var table := Tally(data);
    assert data == [] ==> table == [];
    match TableCodes(table)
    case Failure(e) => Failure(e)
    case Success(codes) =>
      match Encode(data, codes)
      case Failure(e) => Failure(e)
      case Success(bits) => Success(HuffmanCompressedFile(table, PackBits(bits)))
  }

  /** No two symbols share a code. */
  predicate Injective(codes: map<byte, string>)
  {
    forall a, b | a in codes && b in codes && a != b :: codes[a] != codes[b]
  }

  /** `codeTable.ToDictionary(kv => kv.Value, kv => kv.Key)`: the map from code
      back to symbol; two symbols with the same code make it throw. */
  function Invert(codes: map<byte, string>): (r: Result<map<string, byte>>)
    ensures r.Success? <==> Injective(codes)
    ensures r.Failure? ==> r.error == DuplicateKey
    ensures r.Success? ==> forall a | a in codes :: codes[a] in r.value && r.value[codes[a]] == a
    ensures r.Success? ==> forall c | c in r.value :: r.value[c] in codes && codes[r.value[c]] == c
  {
    if Injective(codes) then Success(map a | a in codes :: codes[a] := a) else Failure(DuplicateKey)
  }

  /** The decode loop from `buffer` over `bits`: each bit is appended to
      `buffer` as "0" or "1"; when `buffer` is a code its symbol is emitted and
      `buffer` restarts empty. Bits left in `buffer` at the end are dropped. */
  function Greedy(dm: map<string, byte>, buffer: string, bits: seq<Bit>): (r: seq<byte>)
    ensures |r| <= |bits|
    decreases |bits|
  {
    if bits == [] then []
    else
      var next := buffer + (if bits[0] == 1 then "1" else "0");
      if next in dm then [dm[next]] + Greedy(dm, "", bits[1..])
      else Greedy(dm, next, bits[1..])
  }

  /** What the decode part of `Decompress` produces for one record: at most
      one byte per payload bit. An empty stored table throws as in compression. */
  function ShannonFanoDecode(table: Table, payload: seq<byte>): (r: Result<seq<byte>>)
    ensures table == [] ==> r == Failure(ArgumentOutOfRange)
    ensures r.Failure? ==>
      r.error == ArgumentOutOfRange || r.error == Overflow || r.error == StackOverflow || r.error == DuplicateKey
    ensures r.Success? ==> |r.value| <= 8 * |payload|
  {
    match TableCodes(table)
    case Failure(e) => Failure(e)
    case Success(codes) =>
      match Invert(codes)
      case Failure(e) => Failure(e)
      case Success(dm) => Success(Greedy(dm, "", BytesToBits(payload)))
  }

  /** Prefix-free codes are distinct. */
  lemma PrefixFreeInjective(codes: map<byte, string>)
    requires PrefixFree(codes)
    ensures Injective(codes)
  {
    forall a, b | a in codes && b in codes && a != b ensures codes[a] != codes[b] {
      assert !IsPrefix(codes[a], codes[b]);
    }
  }

  /** `dm` undoes `codes`: the state `Invert` leaves on success. */
  predicate Inverse(codes: map<byte, string>, dm: map<string, byte>)
  {
    && (forall a | a in codes :: codes[a] in dm && dm[codes[a]] == a)
    && (forall c | c in dm :: dm[c] in codes && codes[dm[c]] == c)
  }

  /** The codes a successful build gives for a table with distinct keys. */
  predicate GoodCodes(codes: map<byte, string>)
  {
    && PrefixFree(codes)
    && forall a | a in codes :: codes[a] != [] && IsBinary(codes[a])
  }

  /** One bit of the decode loop. */
  lemma GreedyCons(dm: map<string, byte>, buffer: string, b: Bit, rest: seq<Bit>)
    ensures var next := buffer + (if b == 1 then "1" else "0");
      Greedy(dm, buffer, [b] + rest) ==
        if next in dm then [dm[next]] + Greedy(dm, "", rest) else Greedy(dm, next, rest)
  {
    assert ([b] + rest)[0] == b && ([b] + rest)[1..] == rest;
  }

  lemma CodeBitsAt(c: string, k: nat)
    requires k < |c|
    ensures CodeBits(c[k..]) == [if c[k] == '1' then 1 else 0] + CodeBits(c[k + 1..])
  {
    assert c[k..] == [c[k]] + c[k + 1..];
    CodeBitsAppend([c[k]], c[k + 1..]);
  }

  /** A proper prefix of a code is no code, so the decode loop does not stop at it. */
  lemma NoShorterCode(codes: map<byte, string>, dm: map<string, byte>, x: byte, j: nat)
    requires PrefixFree(codes) && Inverse(codes, dm)
    requires x in codes && j < |codes[x]|
    ensures codes[x][..j] !in dm
  {
    var c := codes[x];
    forall y | y in codes ensures codes[y] != c[..j] {
      if y != x {
        assert !IsPrefix(codes[y], c);
      }
    }
  }

  /** Appending the character for the bit of a binary code's next character
      extends the buffer by that character. */
  lemma BufferStep(c: string, k: nat)
    requires IsBinary(c) && k < |c|
    ensures c[..k] + (if c[k] == '1' then "1" else "0") == c[..k + 1]
  {
    assert c[k] == '0' || c[k] == '1';
  }

  /** With the first `k` characters of `x`'s code in `buffer`, the rest of the
      code brings the loop to emit `x` and restart empty; no shorter buffer
      matched on the way, since it would be a code that is a prefix of `x`'s. */
  lemma {:induction false} GreedyCodeFrom(codes: map<byte, string>, dm: map<string, byte>, x: byte, k: nat, tail: seq<Bit>)
    requires GoodCodes(codes) && Inverse(codes, dm)
    requires x in codes && k < |codes[x]|
    ensures Greedy(dm, codes[x][..k], CodeBits(codes[x][k..]) + tail) == [x] + Greedy(dm, "", tail)
    decreases |codes[x]| - k
  {
    var c := codes[x];
    var b: Bit := if c[k] == '1' then 1 else 0;
    var rest := CodeBits(c[k + 1..]) + tail;
    CodeBitsAt(c, k);
    AppendAssoc([b], CodeBits(c[k + 1..]), tail);
    GreedyCons(dm, c[..k], b, rest);
    var next := c[..k + 1];
    BufferStep(c, k);
    if k + 1 == |c| {
      assert next == c;
      assert c[k + 1..] == [];
      assert rest == tail;
    } else {
      NoShorterCode(codes, dm, x, k + 1);
      GreedyCodeFrom(codes, dm, x, k + 1, tail);
    }
  }

  /** Greedy decoding of an encoded run gives the run back, then decodes what follows. */
  lemma {:induction false} GreedyEncoded(codes: map<byte, string>, dm: map<string, byte>, data: seq<byte>, tail: seq<Bit>)
    requires GoodCodes(codes) && Inverse(codes, dm)
    requires Encode(data, codes).Success?
    ensures Greedy(dm, "", Encode(data, codes).value + tail) == data + Greedy(dm, "", tail)
  {
    if data != [] {
      EncodeCons(data, codes);
      var c := codes[data[0]];
      var rest := Encode(data[1..], codes).value;
      GreedyEncoded(codes, dm, data[1..], tail);
      GreedyCodeFrom(codes, dm, data[0], 0, rest + tail);
      assert c[..0] == "" && c[0..] == c;
      AppendAssoc(CodeBits(c), rest, tail);
      AppendAssoc([data[0]], data[1..], Greedy(dm, "", tail));
      assert data == [data[0]] + data[1..];
    } else {
      assert Encode(data, codes).value + tail == tail;
    }
  }

  /** The sorted table of a file: descending, counts that are occurrences, the
      file's distinct bytes as keys, and the file's length as total. */
  lemma SortedTally(data: seq<byte>)
    ensures Descending(SortByCountDesc(Tally(data)))
    ensures DistinctKeys(SortByCountDesc(Tally(data)))
    ensures forall k | 0 <= k < |SortByCountDesc(Tally(data))| :: SortByCountDesc(Tally(data))[k].1 >= 0
    ensures Total(SortByCountDesc(Tally(data))) == |data|
    ensures |SortByCountDesc(Tally(data))| == |Tally(data)|
    ensures forall b :: ContainsKey(SortByCountDesc(Tally(data)), b) <==> b in data
  {
    var t := Tally(data);
    var sorted := SortByCountDesc(t);
    TallyFacts(data);
    SortFacts(t);
    SortKeys(t);
    forall k | 0 <= k < |sorted| ensures sorted[k].1 >= 0 {
      assert sorted[k] in multiset(sorted);
      assert sorted[k] in multiset(t);
    }
  }

  /** A non-empty file whose length is an `int` gets a code for each of its
      distinct bytes and no other; the codes are non-empty, binary and prefix-free. */
  lemma TallyCodes(data: seq<byte>)
    requires data != [] && |data| <= Int32Max
    ensures TableCodes(Tally(data)).Success?
    ensures forall b :: b in TableCodes(Tally(data)).value <==> b in data
    ensures GoodCodes(TableCodes(Tally(data)).value)
  {
    var sorted := SortByCountDesc(Tally(data));
    SortedTally(data);
    TallyFacts(data);
    assert ContainsKey(Tally(data), data[0]);
    RootCodesSucceed(sorted);
    var r := RootCodes(sorted);
    assert TableCodes(Tally(data)) == r;
    RootCodesFacts(sorted, r.value);
  }

  /** Round trip: the stored table is the file's byte counts, and decoding the
      payload yields the file's bytes followed by at most 7 extra symbols,
      decoded from the zero padding. */
  lemma ShannonFanoRoundTrip(data: seq<byte>)
    requires data != [] && |data| <= Int32Max
    ensures ShannonFanoEncode(data).Success?
    ensures ShannonFanoEncode(data).value.frequencyTable == Tally(data)
    ensures var f := ShannonFanoEncode(data).value;
      && ShannonFanoDecode(f.frequencyTable, f.encodedData).Success?
      && IsPrefix(data, ShannonFanoDecode(f.frequencyTable, f.encodedData).value)
      && |ShannonFanoDecode(f.frequencyTable, f.encodedData).value| <= |data| + 7
  {
    TallyCodes(data);
    var codes := TableCodes(Tally(data)).value;
    EncodeAllKeys(data, codes);
    PrefixFreeInjective(codes);
    var dm := Invert(codes).value;
    var bits := Encode(data, codes).value;
    var pad := Zeros(PadLength(|bits|));
    PackUnpack(bits);
    GreedyEncoded(codes, dm, data, pad);
  }

  /** A run of one byte with the code "0" encodes to as many zero bits. */
  lemma {:induction false} EncodeRun(data: seq<byte>, x: byte)
    requires forall i | 0 <= i < |data| :: data[i] == x
    ensures Encode(data, map[x := "0"]) == Success(Zeros(|data|))
  {
    if data != [] {
      EncodeRun(data[1..], x);
      assert CodeBits("0") == [0];
      assert [0] + Zeros(|data| - 1) == Zeros(|data|);
    }
  }

  /** Every zero bit decodes to a copy of the byte whose code is "0". */
  lemma {:induction false} GreedyZeros(x: byte, n: nat)
    ensures Greedy(map["0" := x], "", Zeros(n)) == seq(n, i => x)
  {
    if n > 0 {
      GreedyZeros(x, n - 1);
      assert Zeros(n)[1..] == Zeros(n - 1);
      assert "" + "0" == "0";
      assert [x] + seq(n - 1, i => x) == seq(n, i => x);
    }
  }

  /** A file of copies of one byte has a one-entry table, whose code is "0". */
  lemma SingleSymbolCodes(data: seq<byte>)
    requires data != []
    requires forall i | 0 <= i < |data| :: data[i] == data[0]
    ensures Tally(data) == [(data[0], |data|)]
    ensures TableCodes(Tally(data)) == Success(map[data[0] := "0"])
  {
    SingleSymbolTally(data);
    var t := Tally(data);
    assert SortByCountDesc(t) == Insert(t[0], SortByCountDesc([])) == t;
    SingleEntryCode(t[0]);
  }

  /** Inverting the one code "0". */
  lemma InvertSingle(x: byte)
    ensures Invert(map[x := "0"]) == Success(map["0" := x])
  {
    var inv := Invert(map[x := "0"]);
    assert inv.Success?;
    assert x in map[x := "0"];
    var m := inv.value;
    assert m["0"] == x;
    forall c | c in m ensures c == "0" {
      assert m[c] in map[x := "0"];
    }
    assert m.Keys == map["0" := x].Keys;
    assert m == map["0" := x];
  }

  /** A file of `n` copies of one byte: its only code is "0", so each of the
      padding bits of the last byte decodes to one more copy. */
  lemma SingleSymbol(data: seq<byte>)
    requires data != []
    requires forall i | 0 <= i < |data| :: data[i] == data[0]
    ensures ShannonFanoEncode(data).Success?
    ensures var f := ShannonFanoEncode(data).value;
      ShannonFanoDecode(f.frequencyTable, f.encodedData) == Success(seq(|data| + PadLength(|data|), i => data[0]))
  {
    var x := data[0];
    SingleSymbolCodes(data);
    EncodeRun(data, x);
    InvertSingle(x);
    PackUnpack(Zeros(|data|));
    assert Zeros(|data|) + Zeros(PadLength(|data|)) == Zeros(|data| + PadLength(|data|));
    GreedyZeros(x, |data| + PadLength(|data|));
  }

  lemma PadThree()
    ensures PadLength(3) == 5
  {
  }

  /** Three copies of a byte come back as eight. */
  lemma ThreeBecomeEight(x: byte)
    ensures ShannonFanoEncode([x, x, x]).Success?
    ensures var f := ShannonFanoEncode([x, x, x]).value;
      ShannonFanoDecode(f.frequencyTable, f.encodedData) == Success([x, x, x, x, x, x, x, x])
  {
    SingleSymbol([x, x, x]);
    PadThree();
    assert seq(8, i => x) == [x, x, x, x, x, x, x, x];
  }

  lemma UpdateIsUnion(m: map<byte, string>, k: byte, v: string)
    ensures m[k := v] == m + map[k := v]
  {
  }

  lemma UnionAssoc(a: map<byte, string>, b: map<byte, string>, c: map<byte, string>)
    ensures a + b + c == a + (b + c)
  {
  }

  /** The symbols of the entries of `t` from index `i` on. */
  function KeysFrom(t: Table, i: nat): set<byte>
    decreases |t| - i
  {
    if i >= |t| then {} else {t[i].0} + KeysFrom(t, i + 1)
  }

  lemma {:induction false} KeysFromShrink(t: Table, i: nat, j: nat)
    requires i <= j
    ensures KeysFrom(t, j) <= KeysFrom(t, i)
    decreases j - i
  {
    if i < j {
      KeysFromShrink(t, i + 1, j);
    }
  }

  /** A build that ends as `r`, storing only symbols of `reach`, says: on
      success no error and `after` is `before` with the codes `r` holds stored
      over it; on failure that error, with the stores made before the throw
      left in place: no symbol is removed, and every one added is in `reach`. */
  predicate Stored(before: map<byte, string>, after: map<byte, string>, err: Option<Error>,
                   r: Result<map<byte, string>>, reach: set<byte>)
  {
    match r
    case Success(codes) => err.None? && after == before + codes && codes.Keys <= reach
    case Failure(e) => err == Some(e) && before.Keys <= after.Keys <= before.Keys + reach
  }

  /** The part of `BuildCodeTable` that picks `split`: the checked LINQ sum of
      the range, then the loop that stops at the first index whose running sum
      reaches `total / 2`; `split` stays `start` when none does. The running
      sums are partial sums of the checked one, so `acc +=` never wraps. */
  method SplitIndex(sortedFreqs: Table, start: nat, end: int) returns (r: Result<nat>)
    requires start <= |sortedFreqs| && end < |sortedFreqs|
    ensures r == Split(sortedFreqs, start, end)
  {
    var seg := Range(sortedFreqs, start, end);
    var sum := CheckedSum(seg);
    if sum.Failure? {
      return Failure(sum.error);
    }
    var total := sum.value;
    CheckedSumFacts(seg);
    var acc := 0;
    var split := start;
    var i := start;
    assert seg[..0] == [];
    while i <= end
      invariant start <= i <= start + |seg|
      invariant acc == RunningSum(seg, i - start)
      invariant FirstReach(seg, Half(total), i - start, acc) == FirstReach(seg, Half(total), 0, 0)
      decreases end - i
    {
      assert seg[i - start] == sortedFreqs[i];
      RunningSumStep(seg, i - start);
      acc := Wrap32(acc + sortedFreqs[i].1);
      if acc >= Half(total) {
        split := i;
        break;
      }
      i := i + 1;
    }
    return Success(split);
  }

  /** Huffman/ShannonFano/ShannonFanoProcessor.cs `ShannonFanoProcessor`, with
      its one field, the code table the recursive build fills. */
  class ShannonFanoProcessor {
    var codeTable: map<byte, string>

    constructor ()
      ensures codeTable == map[]
    {
      codeTable := map[];
    }

    /** `BuildCodeTable(sortedFreqs, start, end, prefix)`: stores the codes of
        the range into `codeTable`, or stops with the exception the source
        raises; `Some(StackOverflow)` stands for the call that recurses on its
        own range, which happens when the split lands on `end`. */
    method BuildCodeTable(sortedFreqs: Table, start: nat, end: int, prefix: string) returns (err: Option<Error>)
      requires start <= |sortedFreqs| && (end < |sortedFreqs| || end == start)
      modifies this
      ensures Stored(old(codeTable), codeTable, err, CodesFor(sortedFreqs, start, end, prefix), KeysFrom(sortedFreqs, start))
      decreases |sortedFreqs| - start, if end < start then 1 else 0, end - start
    {
      if start == end {
        if start == |sortedFreqs| {
          return Some(ArgumentOutOfRange);
        }
        var code := if prefix == "" then "0" else prefix;
        UpdateIsUnion(codeTable, sortedFreqs[start].0, code);
        assert sortedFreqs[start].0 in KeysFrom(sortedFreqs, start);
        codeTable := codeTable[sortedFreqs[start].0 := code];
        return None;
      }
      var found := SplitIndex(sortedFreqs, start, end);
      if found.Failure? {
        return Some(found.error);
      }
      var split := found.value;
      CodesForAt(sortedFreqs, start, end, prefix, split);
      if split == end {
        return Some(StackOverflow);
      }
      HalvesAt(sortedFreqs, start, split, end, prefix);
      err := BuildCodeTable(sortedFreqs, start, split, prefix + "0");
      if err.Some? {
        return;
      }
      ghost var left := CodesFor(sortedFreqs, start, split, prefix + "0").value;
      KeysFromShrink(sortedFreqs, start, split + 1);
      err := BuildCodeTable(sortedFreqs, split + 1, end, prefix + "1");
      if err.None? {
        ghost var right := CodesFor(sortedFreqs, split + 1, end, prefix + "1").value;
        UnionAssoc(old(codeTable), left, right);
      }
    }

    /** `ShannonFanoCompress` on the file's contents `data`: count, sort, clear
        and rebuild `codeTable`, then write each byte's code. */
    method ShannonFanoCompress(data: seq<byte>) returns (r: Result<HuffmanCompressedFile>)
      modifies this
      ensures r == ShannonFanoEncode(data)
      ensures TableCodes(Tally(data)).Success? ==> codeTable == TableCodes(Tally(data)).value
    {
      var freqTable := MakeRepetitionTable(data);
      var sorted := SortByCountDesc(freqTable);
      ghost var built := TableCodes(freqTable);
      assert built == CodesFor(sorted, 0, |sorted| - 1, "");
      codeTable := map[];
      var err := BuildCodeTable(sorted, 0, |sorted| - 1, "");
      if err.Some? {
        return Failure(err.value);
      }
      assert map[] + built.value == built.value;
      var bytes := WriteCodes(data, codeTable);
      if bytes.Failure? {
        return Failure(bytes.error);
      }
      r := Success(HuffmanCompressedFile(freqTable, bytes.value));
    }

    /** The decode part of `Decompress` for one record: sort the stored table,
        clear and rebuild `codeTable`, invert it, then read the payload bit by
        bit into `buffer`, emitting a byte whenever `buffer` is a code. */
    method DecodePayload(freqTable: Table, encodedData: seq<byte>) returns (r: Result<seq<byte>>)
      modifies this
      ensures r == ShannonFanoDecode(freqTable, encodedData)
      ensures TableCodes(freqTable).Success? ==> codeTable == TableCodes(freqTable).value
    {
      var sorted := SortByCountDesc(freqTable);
      ghost var built := TableCodes(freqTable);
      assert built == CodesFor(sorted, 0, |sorted| - 1, "");
      codeTable := map[];
      var err := BuildCodeTable(sorted, 0, |sorted| - 1, "");
      if err.Some? {
        return Failure(err.value);
      }
      assert map[] + built.value == built.value;
      var decodeMap := Invert(codeTable);
      if decodeMap.Failure? {
        return Failure(decodeMap.error);
      }
      var dm := decodeMap.value;
      ghost var goal := Greedy(dm, "", BytesToBits(encodedData));
      var bitReader := new BitReader(encodedData);
      var buffer := "";
      var output: seq<byte> := [];
      while true
        invariant codeTable == built.value
        invariant bitReader.Valid() && bitReader.data == encodedData
        invariant goal == output + Greedy(dm, buffer, bitReader.Remaining())
        decreases |bitReader.Remaining()|
      {
        var ok, bit := bitReader.ReadBit();
        if !ok {
          break;
        }
        GreedyCons(dm, buffer, bit, bitReader.Remaining());
        buffer := buffer + (if bit == 1 then "1" else "0");
        if buffer in dm {
          AppendAssoc(output, [dm[buffer]], Greedy(dm, "", bitReader.Remaining()));
          output := output + [dm[buffer]];
          buffer := "";
        }
      }
      assert output + [] == output;
      r := Success(output);
    }
  }
}
