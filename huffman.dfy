/** Code assignment, encoding and tree-walking decoding of
    Huffman/Huffman/HuffmanProcessor.cs. */
module HuffmanCoding {
  import opened Base
  import opened BitStream
  import opened Frequency
  import opened HuffmanNodes
  import opened HuffmanTree
  import opened CompressedFiles
  import opened PrefixCodes

  /** `path` leads from `n` to a leaf carrying `s`. */
  ghost predicate ReachesLeaf(n: HuffmanNode, path: seq<Bit>, s: byte)
  {
    Walk(n, path).Some? && Walk(n, path).value.IsLeaf() && Walk(n, path).value.symbol == Some(s)
  }

  /** `BuildCodeTable(node, code, codeTable)`: the entries it stores, a leaf with a
      symbol getting the path that leads to it; a later store for the same
      symbol overwrites an earlier one (map union is right-biased). */
  function BuildCodeTable(node: Option<HuffmanNode>, code: string): (r: map<byte, string>)
    ensures node.None? ==> r == map[]
    ensures node.Some? && node.value.IsLeaf() ==>
      r == if node.value.symbol.Some? then map[node.value.symbol.value := code] else map[]
    decreases node
  {
    match node
    case None => map[]
    case Some(n) =>
      (if n.IsLeaf() && n.symbol.Some? then map[n.symbol.value := code] else map[])
        + BuildCodeTable(n.left, code + "0") + BuildCodeTable(n.right, code + "1")
  }

  lemma {:induction false} CodeTableKeys(n: HuffmanNode, code: string)
    ensures forall s :: s in BuildCodeTable(Some(n), code) <==> s in LeafSymbols(n)
    decreases n
  {
    if n.left.Some? { CodeTableKeys(n.left.value, code + "0"); }
    if n.right.Some? { CodeTableKeys(n.right.value, code + "1"); }
  }

  lemma CodeBitsCons(c: char, s: string)
    ensures CodeBits([c] + s) == [if c == '1' then 1 else 0] + CodeBits(s)
  {
  }

  /** Every code of `table` extends `code` and, past `code`, is the path from `n`
      to a leaf carrying its symbol. */
  ghost predicate CodesReach(n: HuffmanNode, code: string, table: map<byte, string>)
  {
    forall s | s in table :: IsPrefix(code, table[s]) && ReachesLeaf(n, CodeBits(table[s][|code|..]), s)
  }

  lemma {:induction false} CodeTablePaths(n: HuffmanNode, code: string)
    ensures CodesReach(n, code, BuildCodeTable(Some(n), code))
    decreases n
  {
    var here := if n.IsLeaf() && n.symbol.Some? then map[n.symbol.value := code] else map[];
    var l := BuildCodeTable(n.left, code + "0");
    var r := BuildCodeTable(n.right, code + "1");
    forall s | s in here ensures IsPrefix(code, here[s]) && ReachesLeaf(n, CodeBits(here[s][|code|..]), s) {
      assert here[s] == code && code[|code|..] == [];
    }
    if n.left.Some? {
      CodeTablePaths(n.left.value, code + "0");
      LiftChild(n, code, '0', l);
    }
    if n.right.Some? {
      CodeTablePaths(n.right.value, code + "1");
      LiftChild(n, code, '1', r);
    }
    CodesReachUnion(n, code, here, l);
    CodesReachUnion(n, code, here + l, r);
  }

  lemma CodesReachUnion(n: HuffmanNode, code: string, a: map<byte, string>, b: map<byte, string>)
    requires CodesReach(n, code, a) && CodesReach(n, code, b)
    ensures CodesReach(n, code, a + b)
  {
  }

  lemma LiftChild(n: HuffmanNode, code: string, c: char, table: map<byte, string>)
    requires c == '0' || c == '1'
    requires (if c == '0' then n.left else n.right).Some?
    requires CodesReach((if c == '0' then n.left else n.right).value, code + [c], table)
    ensures CodesReach(n, code, table)
  {
    assert |code + [c]| == |code| + 1;
    forall s | s in table ensures IsPrefix(code, table[s]) && ReachesLeaf(n, CodeBits(table[s][|code|..]), s) {
      ChildPath(n, code, c, table[s], s);
    }
  }

  /** A code found in a subtree, seen from its parent. */
  lemma ChildPath(n: HuffmanNode, code: string, c: char, sub: string, s: byte)
    requires c == '0' || c == '1'
    requires (if c == '0' then n.left else n.right).Some?
    requires IsPrefix(code + [c], sub)
    requires ReachesLeaf((if c == '0' then n.left else n.right).value, CodeBits(sub[|code| + 1..]), s)
    ensures IsPrefix(code, sub) && ReachesLeaf(n, CodeBits(sub[|code|..]), s)
  {
    assert sub[|code|..] == [c] + sub[|code| + 1..];
    CodeBitsCons(c, sub[|code| + 1..]);
    var p := CodeBits(sub[|code|..]);
    assert p[0] == (if c == '1' then 1 else 0) && p[1..] == CodeBits(sub[|code| + 1..]);
  }

  lemma {:induction false} CodeTableBinary(n: HuffmanNode, code: string)
    requires IsBinary(code)
    ensures forall s | s in BuildCodeTable(Some(n), code) :: IsBinary(BuildCodeTable(Some(n), code)[s])
    decreases n
  {
    if n.left.Some? { CodeTableBinary(n.left.value, code + "0"); }
    if n.right.Some? { CodeTableBinary(n.right.value, code + "1"); }
  }

  /** The table built from the root with the empty code. */
  function CodeTable(root: HuffmanNode): map<byte, string>
  {
    BuildCodeTable(Some(root), "")
  }

  /** Each leaf symbol gets a binary code, the path from the root to its leaf. */
  lemma CodeTableFacts(root: HuffmanNode)
    ensures forall s :: s in CodeTable(root) <==> s in LeafSymbols(root)
    ensures forall s | s in CodeTable(root) :: IsBinary(CodeTable(root)[s])
    ensures forall s | s in CodeTable(root) :: ReachesLeaf(root, CodeBits(CodeTable(root)[s]), s)
  {
    CodeTableKeys(root, "");
    CodeTableBinary(root, "");
    RootPaths(root);
  }

  lemma RootPaths(root: HuffmanNode)
    ensures forall s | s in CodeTable(root) :: ReachesLeaf(root, CodeBits(CodeTable(root)[s]), s)
  {
    var table := BuildCodeTable(Some(root), "");
    CodeTablePaths(root, "");
    forall s | s in table ensures ReachesLeaf(root, CodeBits(table[s]), s) {
      assert table[s][|""|..] == table[s];
    }
  }

  /** Nothing lies below a leaf: a walk from a leaf that arrives somewhere is empty. */
  lemma WalkFromLeafEmpty(n: HuffmanNode, path: seq<Bit>)
    requires n.IsLeaf() && Walk(n, path).Some?
    ensures path == []
  {
  }

  /** Two codes leading to leaves, one a prefix of the other, are the same code
      and lead to the same symbol. */
  lemma PrefixSameLeaf(root: HuffmanNode, ca: string, cb: string, a: byte, b: byte)
    requires ReachesLeaf(root, CodeBits(ca), a) && ReachesLeaf(root, CodeBits(cb), b)
    requires IsPrefix(ca, cb)
    ensures ca == cb && a == b
  {
    var rest := cb[|ca|..];
    assert cb == ca + rest;
    CodeBitsAppend(ca, rest);
    WalkAppend(root, CodeBits(ca), CodeBits(rest));
    WalkFromLeafEmpty(Walk(root, CodeBits(ca)).value, CodeBits(rest));
    assert rest == [];
  }

  /** With the root internal (at least two symbols), no code is empty and no code
      is a prefix of another. */
  lemma CodesPrefixFree(root: HuffmanNode)
    requires !root.IsLeaf()
    ensures forall s | s in CodeTable(root) :: CodeTable(root)[s] != ""
    ensures PrefixFree(CodeTable(root))
  {
    var table := CodeTable(root);
    CodeTableFacts(root);
    assert Walk(root, []) == Some(root);
    forall s | s in table ensures |CodeBits(table[s])| > 0 {
    }
    forall a, b | a in table && b in table && IsPrefix(table[a], table[b]) ensures a == b {
      PrefixSameLeaf(root, table[a], table[b], a, b);
    }
  }

  /** What `HuffmanCompress` produces from a file's bytes: the file's
      frequency table with the packed code bits. An empty file has no tree, and
      `BuildHuffTree` throws `InvalidOperationException`. */
  function HuffmanEncode(data: seq<byte>, tb: TieBreak): (r: Result<HuffmanCompressedFile>)
    ensures r.Success? ==> r.value.frequencyTable == Tally(data)
    ensures data == [] ==> r == Failure(InvalidOperation)
    ensures r.Failure? ==> r.error == InvalidOperation || r.error == KeyNotFound
  {
    var table := Tally(data);
    assert data == [] ==> table == [];
    match HuffTree(table, tb)
    case Failure(e) => Failure(e)
    case Success(root) =>
      match Encode(data, CodeTable(root))
      case Failure(e) => Failure(e)
      case Success(bits) => Success(HuffmanCompressedFile(table, PackBits(bits)))
  }

  /** `HuffmanCompress` on the file's contents `data`. */
  method HuffmanCompress(data: seq<byte>, tb: TieBreak) returns (r: Result<HuffmanCompressedFile>)
    ensures r == HuffmanEncode(data, tb)
  {
    var freqTable := MakeRepetitionTable(data);
    var tree := BuildHuffTree(freqTable, tb);
    if tree.Failure? {
      return Failure(tree.error);
    }
    var codeTable := BuildCodeTable(Some(tree.value), "");
    var bytes := WriteCodes(data, codeTable);
    if bytes.Failure? {
      return Failure(bytes.error);
    }
    r := Success(HuffmanCompressedFile(freqTable, bytes.value));
  }

  function Prepend(out: seq<byte>, r: Result<seq<byte>>): Result<seq<byte>>
  {
    match r
    case Success(rest) => Success(out + rest)
    case Failure(e) => Failure(e)
  }

  /** The decode loop from node `current` over `bits`: step left on 0 and right
      on 1, emit the symbol at a leaf and restart at `root`. Stepping to a
      missing child makes `current.IsLeaf` throw `NullReferenceException`; a
      leaf without a symbol makes `Symbol.Value` throw `InvalidOperationException`. */
  function WalkDecode(root: HuffmanNode, current: HuffmanNode, bits: seq<Bit>): (r: Result<seq<byte>>)
    ensures r.Success? ==> |r.value| <= |bits|
    ensures r.Failure? ==> r.error == NullReference || r.error == InvalidOperation
    decreases |bits|
  {
    if bits == [] then Success([])
    else
      match (if bits[0] == 0 then current.left else current.right)
      case None => Failure(NullReference)
      case Some(next) =>
        if !next.IsLeaf() then WalkDecode(root, next, bits[1..])
        else if next.symbol.None? then Failure(InvalidOperation)
        else Prepend([next.symbol.value], WalkDecode(root, root, bits[1..]))
  }

  /** What the decode part of `Decompress` produces for one record: the tree is
      rebuilt from the stored table by the same `BuildHuffTree` as the encoder's,
      and at most one byte comes out per payload bit. An empty stored table
      throws as in compression. */
  function HuffmanDecode(table: Table, payload: seq<byte>, tb: TieBreak): (r: Result<seq<byte>>)
    ensures table == [] ==> r == Failure(InvalidOperation)
    ensures r.Failure? ==> r.error == InvalidOperation || r.error == NullReference
    ensures r.Success? ==> |r.value| <= 8 * |payload|
  {
    match HuffTree(table, tb)
    case Failure(e) => Failure(e)
    case Success(root) => WalkDecode(root, root, BytesToBits(payload))
  }

  lemma PrependNil(r: Result<seq<byte>>)
    ensures Prepend([], r) == r
  {
    if r.Success? { assert [] + r.value == r.value; }
  }

  lemma PrependPrepend(a: seq<byte>, b: seq<byte>, r: Result<seq<byte>>)
    ensures Prepend(a, Prepend(b, r)) == Prepend(a + b, r)
  {
    if r.Success? { assert a + (b + r.value) == a + b + r.value; }
  }

  /** One bit of the decode loop. */
  lemma DecodeStep(root: HuffmanNode, current: HuffmanNode, bit: Bit, rest: seq<Bit>)
    ensures var next := if bit == 0 then current.left else current.right;
      WalkDecode(root, current, [bit] + rest) ==
        if next.None? then Failure(NullReference)
        else if !next.value.IsLeaf() then WalkDecode(root, next.value, rest)
        else if next.value.symbol.None? then Failure(InvalidOperation)
        else Prepend([next.value.symbol.value], WalkDecode(root, root, rest))
  {
    assert ([bit] + rest)[0] == bit && ([bit] + rest)[1..] == rest;
  }

  /** The decode loop of `Decompress`, over a `BitReader` on the payload. */
  method DecodePayload(freqTable: Table, encodedData: seq<byte>, tb: TieBreak) returns (r: Result<seq<byte>>)
    ensures r == HuffmanDecode(freqTable, encodedData, tb)
  {
    var tree := BuildHuffTree(freqTable, tb);
    if tree.Failure? {
      return Failure(tree.error);
    }
    var root := tree.value;
    ghost var goal := WalkDecode(root, root, BytesToBits(encodedData));
    var bitReader := new BitReader(encodedData);
    var outputBytes: seq<byte> := [];
    var current := root;
    PrependNil(goal);
    while true
      invariant bitReader.Valid() && bitReader.data == encodedData
      invariant goal == Prepend(outputBytes, WalkDecode(root, current, bitReader.Remaining()))
      decreases |bitReader.Remaining()|
    {
      var ok, bit := bitReader.ReadBit();
      if !ok {
        break;
      }
      DecodeStep(root, current, bit, bitReader.Remaining());
      var next := if bit == 0 then current.left else current.right;
      if next.None? {
        return Failure(NullReference);
      }
      current := next.value;
      if current.IsLeaf() {
        if current.symbol.None? {
          return Failure(InvalidOperation);
        }
        PrependPrepend(outputBytes, [current.symbol.value], WalkDecode(root, root, bitReader.Remaining()));
        outputBytes := outputBytes + [current.symbol.value];
        current := root;
      }
    }
    assert outputBytes + [] == outputBytes;
    r := Success(outputBytes);
  }
}
