/** `BuildHuffTree` of Huffman/Huffman/HuffmanProcessor.cs: repeated merging of
    the two minimum-frequency nodes of a priority queue. */
module HuffmanTree {
  import opened Base
  import opened Frequency
  import opened HuffmanNodes

  /** The priority queue's contents, in the order they were enqueued. A node's
      priority is always its `Frequency` (the leaf is enqueued with `kv.Value`,
      the merged node with the same wrapped sum it stores). */
  type Queue = seq<HuffmanNode>

  /** Which of several minimum-priority nodes `PriorityQueue.Dequeue` hands out
      is a detail of the .NET heap; it is a deterministic function of the queue,
      consulted only when it names a minimum. */
  type TieBreak = Queue -> nat

  predicate IsMinAt(q: Queue, k: int)
  {
    0 <= k < |q| && forall j | 0 <= j < |q| :: q[k].frequency <= q[j].frequency
  }

  /** The first node of minimum frequency. */
  function FirstMin(q: Queue): (k: nat)
    requires q != []
    ensures IsMinAt(q, k)
  {
    if |q| == 1 then 0
    else
      var k := FirstMin(q[1..]);
      if q[0].frequency <= q[k + 1].frequency then 0 else k + 1
  }

  function MinIndex(q: Queue, tb: TieBreak): (k: nat)
    requires q != []
    ensures IsMinAt(q, k)
  {
    if IsMinAt(q, tb(q)) then tb(q) else FirstMin(q)
  }

  function RemoveAt(q: Queue, k: nat): Queue
    requires k < |q|
  {
    q[..k] + q[k + 1..]
  }

  /** `pq.Dequeue()`: a node of minimum priority, and the queue without it. */
  function Dequeue(q: Queue, tb: TieBreak): (r: (HuffmanNode, Queue))
    requires q != []
    ensures forall j | 0 <= j < |q| :: r.0.frequency <= q[j].frequency
    ensures r.0 in q && |r.1| == |q| - 1
  {
    var k := MinIndex(q, tb);
    assert q == q[..k] + [q[k]] + q[k + 1..];
    (q[k], RemoveAt(q, k))
  }

  /** One iteration of the merge loop: dequeue `left`, then `right`, enqueue the merged node. */
  function MergeOnce(q: Queue, tb: TieBreak): (r: Queue)
    requires |q| >= 2
    ensures |r| == |q| - 1
  {
    var (left, q1) := Dequeue(q, tb);
    var (right, q2) := Dequeue(q1, tb);
    q2 + [Merge(left, right)]
  }

  /** The merge loop run until one node is left, and that node. */
  function MergeAll(q: Queue, tb: TieBreak): HuffmanNode
    requires q != []
    decreases |q|
  {
    if |q| == 1 then q[0] else MergeAll(MergeOnce(q, tb), tb)
  }

  /** The leaves enqueued for the table, in enumeration order. */
  function InitialQueue(t: Table): (q: Queue)
    ensures |q| == |t|
  {
    if t == [] then [] else InitialQueue(t[..|t| - 1]) + [Leaf(t[|t| - 1].0, t[|t| - 1].1)]
  }

  /** The tree `BuildHuffTree` returns; on an empty table the final `Dequeue`
      throws `InvalidOperationException`. */
  function HuffTree(t: Table, tb: TieBreak): (r: Result<HuffmanNode>)
    ensures r.Failure? <==> t == []
    ensures r.Failure? ==> r.error == InvalidOperation
  {
    if t == [] then Failure(InvalidOperation) else Success(MergeAll(InitialQueue(t), tb))
  }

  method BuildHuffTree(frequencies: Table, tb: TieBreak) returns (tree: Result<HuffmanNode>)
    ensures tree == HuffTree(frequencies, tb)
  {
    var pq: Queue := [];
    for i := 0 to |frequencies|
      invariant pq == InitialQueue(frequencies[..i])
    {
      assert frequencies[..i + 1][..i] == frequencies[..i];
      pq := pq + [Leaf(frequencies[i].0, frequencies[i].1)];
    }
    assert frequencies[..|frequencies|] == frequencies;
    while |pq| > 1
      invariant |pq| == 0 <==> frequencies == []
      invariant pq != [] ==> MergeAll(pq, tb) == MergeAll(InitialQueue(frequencies), tb)
      decreases |pq|
    {
      var (left, q1) := Dequeue(pq, tb);
      var (right, q2) := Dequeue(q1, tb);
      pq := q2 + [Merge(left, right)];
    }
    if pq == [] {
      tree := Failure(InvalidOperation);
    } else {
      tree := Success(pq[0]);
    }
  }

  // Additive measures over a queue.

  function InternalOf(n: HuffmanNode): int { InternalCount(n) }
  function FrequencyOf(n: HuffmanNode): int { n.frequency }

  /** The leaf entries of all nodes of the queue, in queue order. */
  function Flatten(q: Queue): seq<(byte, int)>
  {
    if q == [] then [] else LeafEntries(q[0]) + Flatten(q[1..])
  }

  function ISum(q: Queue, f: HuffmanNode -> int): int
  {
    if q == [] then 0 else f(q[0]) + ISum(q[1..], f)
  }

  lemma {:induction false} FlattenAppend(a: Queue, b: Queue)
    ensures Flatten(a + b) == Flatten(a) + Flatten(b)
  {
    if a == [] {
      assert a + b == b;
    } else {
      assert (a + b)[1..] == a[1..] + b;
      FlattenAppend(a[1..], b);
    }
  }

  lemma {:induction false} ISumAppend(a: Queue, b: Queue, f: HuffmanNode -> int)
    ensures ISum(a + b, f) == ISum(a, f) + ISum(b, f)
  {
    if a == [] {
      assert a + b == b;
    } else {
      assert (a + b)[1..] == a[1..] + b;
      ISumAppend(a[1..], b, f);
    }
  }

  lemma SplitAt(q: Queue, k: nat)
    requires k < |q|
    ensures q == q[..k] + ([q[k]] + q[k + 1..])
  {
  }

  lemma FlattenRemove(q: Queue, k: nat)
    requires k < |q|
    ensures multiset(Flatten(q)) == multiset(LeafEntries(q[k])) + multiset(Flatten(RemoveAt(q, k)))
  {
    SplitAt(q, k);
    FlattenAppend(q[..k], [q[k]] + q[k + 1..]);
    FlattenAppend([q[k]], q[k + 1..]);
    FlattenAppend(q[..k], q[k + 1..]);
    assert Flatten([q[k]]) == LeafEntries(q[k]);
  }

  lemma ISumRemove(q: Queue, k: nat, f: HuffmanNode -> int)
    requires k < |q|
    ensures ISum(q, f) == f(q[k]) + ISum(RemoveAt(q, k), f)
  {
    assert q == q[..k] + ([q[k]] + q[k + 1..]);
    ISumAppend(q[..k], [q[k]] + q[k + 1..], f);
    ISumAppend([q[k]], q[k + 1..], f);
    ISumAppend(q[..k], q[k + 1..], f);
  }

  ghost predicate AllWellFormed(q: Queue)
  {
    forall i | 0 <= i < |q| :: WellFormed(q[i])
  }

  /** No node's frequency is negative and the queue's total fits an `int`, so no
      addition of the merge loop wraps around. */
  ghost predicate NoOverflow(q: Queue)
  {
    (forall i | 0 <= i < |q| :: q[i].frequency >= 0) && ISum(q, FrequencyOf) <= Int32Max
  }

  lemma DequeueFacts(q: Queue, tb: TieBreak)
    requires q != []
    ensures Dequeue(q, tb).0 in q && |Dequeue(q, tb).1| == |q| - 1
    ensures forall x | x in Dequeue(q, tb).1 :: x in q
  {
    var k := MinIndex(q, tb);
    forall x | x in RemoveAt(q, k) ensures x in q {
      assert x in q[..k] || x in q[k + 1..];
    }
  }

  lemma DequeueEntries(q: Queue, tb: TieBreak)
    requires q != []
    ensures multiset(LeafEntries(Dequeue(q, tb).0)) + multiset(Flatten(Dequeue(q, tb).1)) == multiset(Flatten(q))
  {
    FlattenRemove(q, MinIndex(q, tb));
  }

  lemma DequeueISum(q: Queue, tb: TieBreak, f: HuffmanNode -> int)
    requires q != []
    ensures f(Dequeue(q, tb).0) + ISum(Dequeue(q, tb).1, f) == ISum(q, f)
  {
    ISumRemove(q, MinIndex(q, tb), f);
  }

  /** `MergeOnce` takes `left` and `right` out of the queue and appends their merge. */
  lemma MergeOnceParts(q: Queue, tb: TieBreak) returns (left: HuffmanNode, right: HuffmanNode, rest: Queue)
    requires |q| >= 2
    ensures MergeOnce(q, tb) == rest + [Merge(left, right)]
    ensures left in q && right in q && forall x | x in rest :: x in q
    ensures left == Dequeue(q, tb).0 && right == Dequeue(Dequeue(q, tb).1, tb).0
    ensures rest == Dequeue(Dequeue(q, tb).1, tb).1
  {
    var q1;
    left, q1 := Dequeue(q, tb).0, Dequeue(q, tb).1;
    DequeueFacts(q, tb);
    right, rest := Dequeue(q1, tb).0, Dequeue(q1, tb).1;
    DequeueFacts(q1, tb);
  }

  lemma ISumSnoc(q: Queue, n: HuffmanNode, f: HuffmanNode -> int)
    ensures ISum(q + [n], f) == ISum(q, f) + f(n)
  {
    ISumAppend(q, [n], f);
  }

  lemma MergeOnceEntries(q: Queue, tb: TieBreak)
    requires |q| >= 2
    ensures multiset(Flatten(MergeOnce(q, tb))) == multiset(Flatten(q))
  {
    var left, right, rest := MergeOnceParts(q, tb);
    DequeueEntries(q, tb);
    DequeueEntries(Dequeue(q, tb).1, tb);
    FlattenAppend(rest, [Merge(left, right)]);
    FlattenMerge(left, right);
    var l, r, m1, m := multiset(LeafEntries(left)), multiset(LeafEntries(right)),
      multiset(Flatten(Dequeue(q, tb).1)), multiset(Flatten(rest));
    assert multiset(Flatten(MergeOnce(q, tb))) == m + (l + r);
    assert multiset(Flatten(q)) == l + (r + m);
    MultisetRegroup(l, r, m);
  }

  lemma MultisetRegroup<T>(l: multiset<T>, r: multiset<T>, m: multiset<T>)
    ensures m + (l + r) == l + (r + m)
  {
  }

  lemma FlattenMerge(left: HuffmanNode, right: HuffmanNode)
    ensures Flatten([Merge(left, right)]) == LeafEntries(left) + LeafEntries(right)
  {
    assert [Merge(left, right)][1..] == [];
  }

  /** An integer measure that merging adds up, plus `extra`, grows by `extra`. */
  lemma MergeOnceISum(q: Queue, tb: TieBreak, f: HuffmanNode -> int, extra: int)
    requires |q| >= 2
    requires f(Merge(Dequeue(q, tb).0, Dequeue(Dequeue(q, tb).1, tb).0))
      == f(Dequeue(q, tb).0) + f(Dequeue(Dequeue(q, tb).1, tb).0) + extra
    ensures ISum(MergeOnce(q, tb), f) == ISum(q, f) + extra
  {
    var left, right, rest := MergeOnceParts(q, tb);
    DequeueISum(q, tb, f);
    DequeueISum(Dequeue(q, tb).1, tb, f);
    ISumSnoc(rest, Merge(left, right), f);
  }

  lemma MergeOnceWellFormed(q: Queue, tb: TieBreak)
    requires |q| >= 2 && AllWellFormed(q)
    ensures AllWellFormed(MergeOnce(q, tb))
  {
    var left, right, rest := MergeOnceParts(q, tb);
    var r := rest + [Merge(left, right)];
    assert WellFormed(left) && WellFormed(right);
    forall i | 0 <= i < |r| ensures WellFormed(r[i]) {
      if i < |rest| { assert r[i] in rest; }
    }
  }

  lemma MergeOnceNoOverflow(q: Queue, tb: TieBreak)
    requires |q| >= 2 && NoOverflow(q)
    ensures NoOverflow(MergeOnce(q, tb)) && ISum(MergeOnce(q, tb), FrequencyOf) == ISum(q, FrequencyOf)
  {
    var left, right, rest := MergeOnceParts(q, tb);
    var m := Merge(left, right);
    var r := rest + [m];
    DequeueISum(q, tb, FrequencyOf);
    DequeueISum(Dequeue(q, tb).1, tb, FrequencyOf);
    ISumSnoc(rest, m, FrequencyOf);
    forall i | 0 <= i < |rest| ensures rest[i].frequency >= 0 { assert rest[i] in q; }
    NonNegativeSum(rest);
    assert IsInt32(left.frequency + right.frequency);
    forall i | 0 <= i < |r| ensures r[i].frequency >= 0 {
      if i < |rest| { assert r[i] in rest; }
    }
  }

  lemma {:induction false} NonNegativeSum(q: Queue)
    requires forall i | 0 <= i < |q| :: q[i].frequency >= 0
    ensures ISum(q, FrequencyOf) >= 0
  {
    if q != [] {
      NonNegativeSum(q[1..]);
    }
  }

  lemma {:induction false} MergeAllFacts(q: Queue, tb: TieBreak)
    requires q != [] && AllWellFormed(q)
    ensures var root := MergeAll(q, tb);
      && WellFormed(root)
      && multiset(LeafEntries(root)) == multiset(Flatten(q))
      && InternalCount(root) == ISum(q, InternalOf) + |q| - 1
      && (NoOverflow(q) ==> root.frequency == ISum(q, FrequencyOf))
    decreases |q|
  {
    if |q| == 1 {
      assert q[1..] == [];
    } else {
      MergeOnceEntries(q, tb);
      MergeOnceISum(q, tb, InternalOf, 1);
      MergeOnceWellFormed(q, tb);
      if NoOverflow(q) { MergeOnceNoOverflow(q, tb); }
      MergeAllFacts(MergeOnce(q, tb), tb);
    }
  }

  lemma {:induction false} InitialQueueEntries(t: Table)
    ensures Flatten(InitialQueue(t)) == t
  {
    if t != [] {
      var front, last := t[..|t| - 1], t[|t| - 1];
      InitialQueueEntries(front);
      FlattenAppend(InitialQueue(front), [Leaf(last.0, last.1)]);
      assert Flatten([Leaf(last.0, last.1)]) == [last];
      assert t == front + [last];
    }
  }

  lemma {:induction false} InitialQueueSums(t: Table)
    ensures ISum(InitialQueue(t), InternalOf) == 0
    ensures ISum(InitialQueue(t), FrequencyOf) == Total(t)
  {
    if t != [] {
      var front, last := t[..|t| - 1], t[|t| - 1];
      var leaf := Leaf(last.0, last.1);
      InitialQueueSums(front);
      assert InternalOf(Leaf(last.0, last.1)) == 0;
      ISumSnoc(InitialQueue(front), leaf, InternalOf);
      ISumSnoc(InitialQueue(front), leaf, FrequencyOf);
      assert t == front + [last];
      TotalAppend(front, last);
    }
  }

  lemma {:induction false} InitialQueueLeaves(t: Table)
    ensures forall i | 0 <= i < |t| :: InitialQueue(t)[i] == Leaf(t[i].0, t[i].1)
  {
    if t != [] {
      InitialQueueLeaves(t[..|t| - 1]);
    }
  }

  lemma {:induction false} LeafSymbolsAreKeys(n: HuffmanNode)
    ensures LeafSymbols(n) == Keys(LeafEntries(n))
  {
    var here := if n.IsLeaf() && n.symbol.Some? then [(n.symbol.value, n.frequency)] else [];
    var l := if n.left.Some? then LeafEntries(n.left.value) else [];
    var r := if n.right.Some? then LeafEntries(n.right.value) else [];
    if n.left.Some? { LeafSymbolsAreKeys(n.left.value); }
    if n.right.Some? { LeafSymbolsAreKeys(n.right.value); }
    KeysAppend(here, l);
    KeysAppend(here + l, r);
  }

  lemma SameEntriesSameKeys(a: Table, b: Table)
    requires multiset(a) == multiset(b)
    ensures forall x :: x in Keys(a) <==> x in Keys(b)
  {
    forall x ensures x in Keys(a) ==> x in Keys(b) {
      if x in Keys(a) {
        var i :| 0 <= i < |a| && a[i].0 == x;
        assert a[i] in multiset(b);
        var j :| 0 <= j < |b| && b[j] == a[i];
        assert Keys(b)[j] == x;
      }
    }
    forall x ensures x in Keys(b) ==> x in Keys(a) {
      if x in Keys(b) {
        var j :| 0 <= j < |b| && b[j].0 == x;
        assert b[j] in multiset(a);
        var i :| 0 <= i < |a| && a[i] == b[j];
        assert Keys(a)[i] == x;
      }
    }
  }

  /** For a non-empty table of n entries: the tree is well formed; its leaves
      carry exactly the table's entries (symbol and count, as often as in the
      table) and so exactly the table's symbols; it has n - 1 internal nodes,
      one per merge; and, unless the counts overflow an `int`, the root's
      frequency is the sum of the counts. */
  lemma HuffTreeFacts(t: Table, tb: TieBreak)
    requires t != []
    ensures WellFormed(HuffTree(t, tb).value)
    ensures multiset(LeafEntries(HuffTree(t, tb).value)) == multiset(t)
    ensures forall s :: s in LeafSymbols(HuffTree(t, tb).value) <==> s in Keys(t)
    ensures InternalCount(HuffTree(t, tb).value) == |t| - 1
    ensures (forall i | 0 <= i < |t| :: t[i].1 >= 0) && Total(t) <= Int32Max ==>
      HuffTree(t, tb).value.frequency == Total(t)
  {
    var q := InitialQueue(t);
    var root := MergeAll(q, tb);
    assert HuffTree(t, tb).value == root;
    InitialQueueFacts(t);
    MergeAllFacts(q, tb);
    LeafSymbolsAreKeys(root);
    SameEntriesSameKeys(LeafEntries(root), t);
  }

  lemma InitialQueueFacts(t: Table)
    ensures AllWellFormed(InitialQueue(t))
    ensures Flatten(InitialQueue(t)) == t
    ensures ISum(InitialQueue(t), InternalOf) == 0
    ensures (forall i | 0 <= i < |t| :: t[i].1 >= 0) && Total(t) <= Int32Max ==> NoOverflow(InitialQueue(t))
    ensures ISum(InitialQueue(t), FrequencyOf) == Total(t)
  {
    var q := InitialQueue(t);
    InitialQueueEntries(t);
    InitialQueueSums(t);
    InitialQueueLeaves(t);
    forall i | 0 <= i < |q| ensures WellFormed(q[i]) && q[i].frequency == t[i].1 {
      assert q[i] == Leaf(t[i].0, t[i].1);
    }
  }
}
