/** Huffman/Huffman/HuffmanNode.cs: a code-tree node. `Symbol` is a nullable
    byte and `Left`/`Right` are nullable references, so all three are options;
    nodes are never changed after construction. */
module HuffmanNodes {
  import opened Base

  datatype HuffmanNode = HuffmanNode(
    symbol: Option<byte>,
    frequency: int,
    left: Option<HuffmanNode>,
    right: Option<HuffmanNode>)
  {
    /** `IsLeaf => Left == null && Right == null`. */
    predicate IsLeaf()
    {
      left.None? && right.None?
    }
  }

  /** The leaf `BuildHuffTree` enqueues for a table entry. */
  function Leaf(symbol: byte, frequency: int): (n: HuffmanNode)
    ensures n.IsLeaf() && n.symbol == Some(symbol) && n.frequency == frequency
  {
    HuffmanNode(Some(symbol), frequency, None, None)
  }

  /** The internal node `BuildHuffTree` enqueues for two dequeued nodes: no
      symbol, both children, and their frequencies added as C# `int`s. */
  function Merge(left: HuffmanNode, right: HuffmanNode): (n: HuffmanNode)
    ensures !n.IsLeaf() && n.symbol.None? && n.left == Some(left) && n.right == Some(right)
    ensures n.frequency == Wrap32(left.frequency + right.frequency)
  {
    HuffmanNode(None, Wrap32(left.frequency + right.frequency), Some(left), Some(right))
  }

  /** The shape every tree `BuildHuffTree` returns has: leaves carry a symbol;
      internal nodes carry none, have two children, and the (wrapped) sum of
      their children's frequencies. */
  ghost predicate WellFormed(n: HuffmanNode)
  {
    if n.IsLeaf() then n.symbol.Some?
    else
      && n.symbol.None? && n.left.Some? && n.right.Some?
      && n.frequency == Wrap32(n.left.value.frequency + n.right.value.frequency)
      && WellFormed(n.left.value) && WellFormed(n.right.value)
  }

  /** The (symbol, frequency) pairs of the leaves that have a symbol, left to right. */
  function LeafEntries(n: HuffmanNode): seq<(byte, int)>
  {
    (if n.IsLeaf() && n.symbol.Some? then [(n.symbol.value, n.frequency)] else [])
      + (if n.left.Some? then LeafEntries(n.left.value) else [])
      + (if n.right.Some? then LeafEntries(n.right.value) else [])
  }

  /** The symbols of the leaves, left to right. */
  function LeafSymbols(n: HuffmanNode): seq<byte>
  {
    (if n.IsLeaf() && n.symbol.Some? then [n.symbol.value] else [])
      + (if n.left.Some? then LeafSymbols(n.left.value) else [])
      + (if n.right.Some? then LeafSymbols(n.right.value) else [])
  }

  /** The number of internal nodes. */
  function InternalCount(n: HuffmanNode): nat
  {
    (if n.IsLeaf() then 0 else 1)
      + (if n.left.Some? then InternalCount(n.left.value) else 0)
      + (if n.right.Some? then InternalCount(n.right.value) else 0)
  }

  /** The node reached from `n` by following `path`, 0 to the left and 1 to the right. */
  function Walk(n: HuffmanNode, path: seq<Bit>): Option<HuffmanNode>
    decreases |path|
  {
    if path == [] then Some(n)
    else
      match (if path[0] == 0 then n.left else n.right)
      case None => None
      case Some(child) => Walk(child, path[1..])
  }

  lemma {:induction false} WalkAppend(n: HuffmanNode, p: seq<Bit>, q: seq<Bit>)
    ensures Walk(n, p + q) == match Walk(n, p) case None => None case Some(m) => Walk(m, q)
    decreases |p|
  {
    if p != [] {
      assert (p + q)[0] == p[0] && (p + q)[1..] == p[1..] + q;
      var next := if p[0] == 0 then n.left else n.right;
      if next.Some? {
        WalkAppend(next.value, p[1..], q);
        assert Walk(n, p + q) == Walk(next.value, p[1..] + q);
        assert Walk(n, p) == Walk(next.value, p[1..]);
      }
    } else {
      assert p + q == q;
    }
  }

  /** Nothing lies below a leaf. */
  lemma WalkFromLeaf(n: HuffmanNode, path: seq<Bit>)
    requires n.IsLeaf() && path != []
    ensures Walk(n, path) == None
  {
  }
}
