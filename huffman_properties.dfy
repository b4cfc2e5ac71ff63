/** What the Huffman strategy does to a file's bytes: the round trip with at
    least two distinct bytes, the single-symbol loss and the empty-file failure. */
module HuffmanProperties {
  import opened Base
  import opened BitStream
  import opened Frequency
  import opened HuffmanNodes
  import opened HuffmanTree
  import opened HuffmanCoding
  import opened PrefixCodes
  import opened CompressedFiles

  /** From an internal node of a well-formed tree every bit sequence decodes. */
  lemma {:induction false} WalkDecodeTotal(root: HuffmanNode, current: HuffmanNode, bits: seq<Bit>)
    requires WellFormed(root) && !root.IsLeaf()
    requires WellFormed(current) && !current.IsLeaf()
    ensures WalkDecode(root, current, bits).Success?
    decreases |bits|
  {
    if bits != [] {
      var next := (if bits[0] == 0 then current.left else current.right).value;
      if next.IsLeaf() {
        WalkDecodeTotal(root, root, bits[1..]);
      } else {
        WalkDecodeTotal(root, next, bits[1..]);
      }
    }
  }

  /** Decoding a path to the leaf of `s` emits `s` and restarts at the root. */
  lemma {:induction false} DecodeCode(root: HuffmanNode, current: HuffmanNode, p: seq<Bit>, rest: seq<Bit>, s: byte)
    requires p != [] && ReachesLeaf(current, p, s)
    ensures WalkDecode(root, current, p + rest) == Prepend([s], WalkDecode(root, root, rest))
    decreases |p|
  {
    var next := (if p[0] == 0 then current.left else current.right).value;
    assert (p + rest)[0] == p[0] && (p + rest)[1..] == p[1..] + rest;
    assert Walk(current, p) == Walk(next, p[1..]);
    if next.IsLeaf() {
      WalkFromLeafEmpty(next, p[1..]);
      assert p[1..] + rest == rest;
    } else {
      assert p[1..] != [];
      DecodeCode(root, next, p[1..], rest, s);
    }
  }

  /** With the root internal, each code is a non-empty path to its symbol's leaf. */
  lemma CodeOf(root: HuffmanNode, s: byte)
    requires !root.IsLeaf() && s in CodeTable(root)
    ensures CodeBits(CodeTable(root)[s]) != [] && ReachesLeaf(root, CodeBits(CodeTable(root)[s]), s)
  {
    CodeTableFacts(root);
    CodesPrefixFree(root);
  }

  /** With the root internal, decoding the encoding of `data` emits `data` and
      carries on with whatever follows. */
  lemma {:induction false} DecodeEncoded(root: HuffmanNode, data: seq<byte>, tail: seq<Bit>)
    requires !root.IsLeaf() && Encode(data, CodeTable(root)).Success?
    ensures WalkDecode(root, root, Encode(data, CodeTable(root)).value + tail)
      == Prepend(data, WalkDecode(root, root, tail))
  {
    var table := CodeTable(root);
    if data == [] {
      assert Encode(data, table).value + tail == tail;
      PrependNil(WalkDecode(root, root, tail));
    } else {
      EncodeCons(data, table);
      CodeOf(root, data[0]);
      var p := CodeBits(table[data[0]]);
      var more := Encode(data[1..], table).value;
      DecodeEncoded(root, data[1..], tail);
      assert Encode(data, table).value + tail == p + (more + tail);
      DecodeCode(root, root, p, more + tail, data[0]);
      PrependPrepend([data[0]], data[1..], WalkDecode(root, root, tail));
      assert [data[0]] + data[1..] == data;
    }
  }

  lemma IsLeafNoInternal(n: HuffmanNode)
    requires n.IsLeaf()
    ensures InternalCount(n) == 0
  {
  }

  /** The tree built for the bytes of a non-empty file. */
  lemma TallyTree(data: seq<byte>, tb: TieBreak)
    requires data != []
    ensures HuffTree(Tally(data), tb).Success?
    ensures WellFormed(HuffTree(Tally(data), tb).value)
    ensures forall b :: b in LeafSymbols(HuffTree(Tally(data), tb).value) <==> b in data
    ensures InternalCount(HuffTree(Tally(data), tb).value) == |Tally(data)| - 1
  {
    var t := Tally(data);
    TallyFacts(data);
    assert ContainsKey(t, data[0]);
    HuffTreeFacts(t, tb);
  }

  /** Every byte of a non-empty file gets a code, so encoding it succeeds. */
  lemma TallyCodes(data: seq<byte>, tb: TieBreak)
    requires data != []
    ensures HuffTree(Tally(data), tb).Success?
    ensures forall b :: b in CodeTable(HuffTree(Tally(data), tb).value) <==> b in data
    ensures Encode(data, CodeTable(HuffTree(Tally(data), tb).value)).Success?
  {
    TallyTree(data, tb);
    var root := HuffTree(Tally(data), tb).value;
    CodeTableKeys(root, "");
    EncodeAllKeys(data, CodeTable(root));
  }

  /** Round trip with at least two distinct bytes: the stored table is the
      file's byte counts, and decoding the payload yields the file's bytes
      followed by at most 7 extra symbols, decoded from the zero padding. */
  lemma HuffmanRoundTrip(data: seq<byte>, tb: TieBreak)
    requires exists i, j | 0 <= i < |data| && 0 <= j < |data| :: data[i] != data[j]
    ensures HuffmanEncode(data, tb).Success?
    ensures HuffmanEncode(data, tb).value.frequencyTable == Tally(data)
    ensures var f := HuffmanEncode(data, tb).value;
      && HuffmanDecode(f.frequencyTable, f.encodedData, tb).Success?
      && IsPrefix(data, HuffmanDecode(f.frequencyTable, f.encodedData, tb).value)
      && |HuffmanDecode(f.frequencyTable, f.encodedData, tb).value| <= |data| + 7
  {
    var i, j :| 0 <= i < |data| && 0 <= j < |data| && data[i] != data[j];
    var t := Tally(data);
    TallyFacts(data);
    TallyTree(data, tb);
    TallyCodes(data, tb);
    var root := HuffTree(t, tb).value;
    assert ContainsKey(t, data[i]) && ContainsKey(t, data[j]);
    assert KeyIndex(t, data[i]) != KeyIndex(t, data[j]);
    if root.IsLeaf() {
      IsLeafNoInternal(root);
    }
    var bits := Encode(data, CodeTable(root)).value;
    var pad := Zeros(PadLength(|bits|));
    PackUnpack(bits);
    DecodeEncoded(root, data, pad);
    WalkDecodeTotal(root, root, pad);
  }

  /** A run of one byte whose code is the empty string encodes to no bits. */
  lemma {:induction false} EncodeEmptyCodes(data: seq<byte>, x: byte, codes: map<byte, string>)
    requires x in codes && codes[x] == ""
    requires forall i | 0 <= i < |data| :: data[i] == x
    ensures Encode(data, codes) == Success([])
  {
    if data != [] {
      EncodeEmptyCodes(data[1..], x, codes);
      assert CodeBits(codes[data[0]]) == [];
      assert CodeBits(codes[data[0]]) + [] == [];
    }
  }

  /** A file of one repeated byte: the root is a leaf whose code is "", the
      payload is empty, and decoding yields no bytes at all. */
  lemma HuffmanSingleSymbol(data: seq<byte>, tb: TieBreak)
    requires data != [] && forall i | 0 <= i < |data| :: data[i] == data[0]
    ensures HuffmanEncode(data, tb) == Success(HuffmanCompressedFile([(data[0], |data|)], []))
    ensures HuffmanDecode([(data[0], |data|)], [], tb) == Success([])
  {
    SingleSymbolTally(data);
    var leaf := Leaf(data[0], |data|);
    assert InitialQueue([(data[0], |data|)]) == [leaf];
    assert HuffTree([(data[0], |data|)], tb) == Success(leaf);
    assert leaf.IsLeaf() && leaf.symbol == Some(data[0]);
    assert BuildCodeTable(leaf.left, "0") == map[] && BuildCodeTable(leaf.right, "1") == map[];
    assert "" + "0" == "0" && "" + "1" == "1";
    assert data[0] in CodeTable(leaf) && CodeTable(leaf)[data[0]] == "";
    EncodeEmptyCodes(data, data[0], CodeTable(leaf));
  }

  /** Compression fails exactly on an empty file, with the `InvalidOperationException`
      of the final `Dequeue`; decompression with an empty table fails the same way. */
  lemma HuffmanEncodeFails(data: seq<byte>, tb: TieBreak)
    ensures HuffmanEncode(data, tb).Failure? <==> data == []
    ensures data == [] ==> HuffmanEncode(data, tb).error == InvalidOperation
    ensures forall payload :: HuffmanDecode([], payload, tb) == Failure(InvalidOperation)
  {
    if data != [] {
      TallyCodes(data, tb);
    }
  }
}
