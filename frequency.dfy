/** Frequency counting: `MakeRepitionsTable` (Huffman/Huffman/HuffmanProcessor.cs)
    and its identical twin `MakeRepetitionTable`
    (Huffman/ShannonFano/ShannonFanoProcessor.cs). A `Dictionary<byte, int>` is
    modelled by the list of its pairs in enumeration order, which for a
    dictionary nothing is ever removed from is insertion order. */
module Frequency {
  import opened Base

  type Table = seq<(byte, int)>

  function Keys(t: Table): (r: seq<byte>)
    ensures |r| == |t| && forall i | 0 <= i < |t| :: r[i] == t[i].0
  {
    seq(|t|, i requires 0 <= i < |t| => t[i].0)
  }

  lemma KeysAppend(a: Table, b: Table)
    ensures Keys(a + b) == Keys(a) + Keys(b)
  {
  }

  predicate ContainsKey(t: Table, k: byte) { k in Keys(t) }

  predicate DistinctKeys(t: Table)
  {
    forall i, j | 0 <= i < j < |t| :: t[i].0 != t[j].0
  }

  /** The position of key `k`. */
  function KeyIndex(t: Table, k: byte): (i: nat)
    requires ContainsKey(t, k)
    ensures i < |t| && t[i].0 == k
    ensures forall j | 0 <= j < i :: t[j].0 != k
  {
    if t[0].0 == k then 0 else 1 + KeyIndex(t[1..], k)
  }

  /** Dictionary indexer read. */
  function GetItem(t: Table, k: byte): int
    requires ContainsKey(t, k)
  {
    t[KeyIndex(t, k)].1
  }

  /** Dictionary.Add of a key that is not present: it goes last. */
  function Add(t: Table, k: byte, v: int): (r: Table)
    requires !ContainsKey(t, k)
  {
    t + [(k, v)]
  }

  /** Dictionary indexer write: a present key keeps its place, a new key goes last. */
  function SetItem(t: Table, k: byte, v: int): (r: Table)
  {
    if ContainsKey(t, k) then t[KeyIndex(t, k) := (k, v)] else t + [(k, v)]
  }

  /** `Add` puts the new key last with its count; the other keys and their
      counts stay as they were. */
  lemma AddFacts(t: Table, k: byte, v: int)
    requires !ContainsKey(t, k)
    ensures var r := Add(t, k, v);
      && |r| == |t| + 1 && r[|t|] == (k, v)
      && (forall j :: ContainsKey(r, j) <==> j == k || ContainsKey(t, j))
      && ContainsKey(r, k) && GetItem(r, k) == v
      && (forall j | j != k && ContainsKey(t, j) :: ContainsKey(r, j) && GetItem(r, j) == GetItem(t, j))
      && (DistinctKeys(t) ==> DistinctKeys(r))
  {
    AppendKeyFacts(t, k, v);
  }

  /** The indexer store: afterwards `k` is present with count `v`. A present
      key keeps its position, so the table does not grow; a new key goes last.
      Every other key and its count stay as they were. */
  lemma SetItemFacts(t: Table, k: byte, v: int)
    ensures var r := SetItem(t, k, v);
      && |r| == (if ContainsKey(t, k) then |t| else |t| + 1)
      && (ContainsKey(t, k) ==> r[KeyIndex(t, k)] == (k, v))
      && (!ContainsKey(t, k) ==> r[|t|] == (k, v))
      && (forall j :: ContainsKey(r, j) <==> j == k || ContainsKey(t, j))
      && ContainsKey(r, k) && GetItem(r, k) == v
      && (forall j | j != k && ContainsKey(t, j) :: ContainsKey(r, j) && GetItem(r, j) == GetItem(t, j))
      && (DistinctKeys(t) ==> DistinctKeys(r))
  {
    if ContainsKey(t, k) {
      UpdateKeyFacts(t, KeyIndex(t, k), k, v);
    } else {
      AppendKeyFacts(t, k, v);
    }
  }

  /** The first position holding key `k` is where `KeyIndex` finds it. */
  lemma KeyIndexAt(t: Table, k: byte, i: nat)
    requires i < |t| && t[i].0 == k && forall j | 0 <= j < i :: t[j].0 != k
    ensures ContainsKey(t, k) && KeyIndex(t, k) == i
  {
    assert Keys(t)[i] == k;
  }

  /** Overwriting the count at the position of key `k`. */
  lemma UpdateKeyFacts(t: Table, i: nat, k: byte, v: int)
    requires i < |t| && t[i].0 == k && forall j | 0 <= j < i :: t[j].0 != k
    ensures var r := t[i := (k, v)];
      && (forall j :: ContainsKey(r, j) <==> j == k || ContainsKey(t, j))
      && ContainsKey(r, k) && GetItem(r, k) == v
      && (forall j | j != k && ContainsKey(t, j) :: ContainsKey(r, j) && GetItem(r, j) == GetItem(t, j))
      && (DistinctKeys(t) ==> DistinctKeys(r))
  {
    var r := t[i := (k, v)];
    assert Keys(r) == Keys(t)[i := k];
    KeyIndexAt(r, k, i);
    forall j | j != k && ContainsKey(t, j)
      ensures ContainsKey(r, j) && GetItem(r, j) == GetItem(t, j)
    {
      KeyIndexAt(r, j, KeyIndex(t, j));
    }
  }

  /** Appending a key that is not present. */
  lemma AppendKeyFacts(t: Table, k: byte, v: int)
    requires !ContainsKey(t, k)
    ensures var r := t + [(k, v)];
      && (forall j :: ContainsKey(r, j) <==> j == k || ContainsKey(t, j))
      && ContainsKey(r, k) && GetItem(r, k) == v
      && (forall j | j != k && ContainsKey(t, j) :: ContainsKey(r, j) && GetItem(r, j) == GetItem(t, j))
      && (DistinctKeys(t) ==> DistinctKeys(r))
  {
    var r := t + [(k, v)];
    KeysAppend(t, [(k, v)]);
    forall j | 0 <= j < |t| ensures t[j].0 != k {
      assert Keys(t)[j] == t[j].0;
    }
    KeyIndexAt(r, k, |t|);
    forall j | j != k && ContainsKey(t, j)
      ensures ContainsKey(r, j) && GetItem(r, j) == GetItem(t, j)
    {
      KeyIndexAt(r, j, KeyIndex(t, j));
    }
  }

  /** Sum of the counts. */
  function Total(t: Table): int
  {
    if t == [] then 0 else t[0].1 + Total(t[1..])
  }

  function Occurrences(s: seq<byte>, b: byte): nat { multiset(s)[b] }

  /** The distinct bytes of `s` in the order of their first occurrence. */
  function FirstOccurrences(s: seq<byte>): seq<byte>
  {
    if s == [] then []
    else
      var front := FirstOccurrences(s[..|s| - 1]);
      if s[|s| - 1] in front then front else front + [s[|s| - 1]]
  }

  /** Reference definition of the table of `s`: each distinct byte, in order of
      first occurrence, paired with its number of occurrences. */
  function Tally(s: seq<byte>): Table
  {
    var keys := FirstOccurrences(s);
    seq(|keys|, i requires 0 <= i < |keys| => (keys[i], Occurrences(s, keys[i])))
  }

  /** The first statement of the counting loop: a byte not yet present is
      added with count 0. */
  function WithKey(t: Table, b: byte): (r: Table)
    ensures ContainsKey(r, b)
    ensures ContainsKey(t, b) ==> r == t
    ensures !ContainsKey(t, b) ==> r == t + [(b, 0)]
  {
    if !ContainsKey(t, b) then
      var r := Add(t, b, 0);
      assert Keys(r)[|t|] == b;
      r
    else t
  }

  /** One round of the counting loop: the byte's key is made present, then
      its count is incremented. */
  function Count(t: Table, b: byte): Table
  {
    var t' := WithKey(t, b);
    SetItem(t', b, GetItem(t', b) + 1)
  }

  /** The table the counting loop holds after the bytes of `s`. */
  function Counted(s: seq<byte>): Table
  {
    if s == [] then [] else Count(Counted(s[..|s| - 1]), s[|s| - 1])
  }

  /** Counts the bytes of `bytes` into a fresh dictionary, as both processors do. */
  method MakeRepetitionTable(bytes: seq<byte>) returns (frequencies: Table)
    ensures frequencies == Tally(bytes)
  {
    frequencies := [];
    for i := 0 to |bytes|
      invariant frequencies == Counted(bytes[..i])
    {
      var b := bytes[i];
      CountedStep(bytes, i);
      ghost var before := frequencies;
      if !ContainsKey(frequencies, b) {
        frequencies := Add(frequencies, b, 0);
      }
      assert frequencies == WithKey(before, b);
      frequencies := SetItem(frequencies, b, GetItem(frequencies, b) + 1);
    }
    assert bytes[..|bytes|] == bytes;
    CountedIsTally(bytes);
  }

  lemma CountedStep(s: seq<byte>, i: nat)
    requires i < |s|
    ensures Counted(s[..i + 1]) == Count(Counted(s[..i]), s[i])
  {
    assert s[..i + 1][..i] == s[..i];
  }

  /** The loop's table is the reference table. */
  lemma {:induction false} CountedIsTally(s: seq<byte>)
    ensures Counted(s) == Tally(s)
  {
    if s != [] {
      var init, last := s[..|s| - 1], s[|s| - 1];
      assert s == init + [last];
      calc {
        Counted(s);
        Count(Counted(init), last);
        { CountedIsTally(init); }
        Count(Tally(init), last);
        { TallyStep(init, last); }
        Tally(s);
      }
    }
  }

  // ---------------------------------------------------------------------------

  lemma {:induction false} FirstOccurrencesFacts(s: seq<byte>)
    ensures forall i, j | 0 <= i < j < |FirstOccurrences(s)| :: FirstOccurrences(s)[i] != FirstOccurrences(s)[j]
    ensures forall b :: b in FirstOccurrences(s) <==> b in s
  {
    if s != [] {
      var front := s[..|s| - 1];
      FirstOccurrencesFacts(front);
      assert s == front + [s[|s| - 1]];
    }
  }

  /** There are no more distinct bytes than bytes. */
  lemma {:induction false} TallySize(s: seq<byte>)
    ensures |Tally(s)| <= |s|
  {
    if s != [] {
      TallySize(s[..|s| - 1]);
    }
  }

  lemma TallyKeys(s: seq<byte>)
    ensures Keys(Tally(s)) == FirstOccurrences(s)
  {
  }

  /** One round of the counting loop turns the table of `s` into the table of `s + [b]`. */
  lemma TallyStep(s: seq<byte>, b: byte)
    ensures Tally(s + [b]) == Count(Tally(s), b)
  {
    TallyKeys(s);
    if b in FirstOccurrences(s) {
      TallyAppendOld(s, b);
      CountOld(Tally(s), b);
    } else {
      TallyAppendNew(s, b);
      CountNew(Tally(s), b);
    }
  }

  /** A key not yet present goes last with count 1. */
  lemma CountNew(t: Table, b: byte)
    requires !ContainsKey(t, b)
    ensures Count(t, b) == t + [(b, 1)]
  {
    var t' := WithKey(t, b);
    KeysAppend(t, [(b, 0)]);
    assert Keys(t') == Keys(t) + [b];
    assert KeyIndex(t', b) == |t|;
  }

  /** A present key keeps its place and its count goes up by one. */
  lemma CountOld(t: Table, b: byte)
    requires ContainsKey(t, b)
    ensures Count(t, b) == t[KeyIndex(t, b) := (b, t[KeyIndex(t, b)].1 + 1)]
  {
  }

  lemma TotalCount(t: Table, b: byte)
    ensures Total(Count(t, b)) == Total(t) + 1
  {
    if ContainsKey(t, b) {
      CountOld(t, b);
      var k := KeyIndex(t, b);
      TotalUpdate(t, k, (b, t[k].1 + 1));
    } else {
      CountNew(t, b);
      TotalAppend(t, (b, 1));
    }
  }

  lemma OccurrencesAppend(s: seq<byte>, b: byte, x: byte)
    ensures Occurrences(s + [b], x) == Occurrences(s, x) + (if x == b then 1 else 0)
  {
    assert multiset(s + [b]) == multiset(s) + multiset{b};
    if x == b {
      assert multiset{b}[b] == 1;
    } else {
      assert x !in multiset{b};
    }
  }

  lemma {:induction false} OccurrencesBound(s: seq<byte>, x: byte)
    ensures Occurrences(s, x) <= |s|
    ensures x in s ==> Occurrences(s, x) >= 1
  {
    if s != [] {
      var front := s[..|s| - 1];
      assert s == front + [s[|s| - 1]];
      OccurrencesBound(front, x);
      OccurrencesAppend(front, s[|s| - 1], x);
    }
  }

  /** Another occurrence of a byte already seen adds one to its count, in place. */
  lemma TallyAppendOld(s: seq<byte>, b: byte)
    requires b in FirstOccurrences(s)
    ensures ContainsKey(Tally(s), b)
    ensures Tally(s + [b]) == Tally(s)[KeyIndex(Tally(s), b) := (b, Tally(s)[KeyIndex(Tally(s), b)].1 + 1)]
  {
    var t, f := Tally(s), FirstOccurrences(s);
    FirstOccurrencesFacts(s);
    TallyKeys(s);
    assert (s + [b])[..|s|] == s;
    assert FirstOccurrences(s + [b]) == f;
    var k := KeyIndex(t, b);
    var next := t[k := (b, t[k].1 + 1)];
    var goal := Tally(s + [b]);
    assert |next| == |goal|;
    forall i | 0 <= i < |goal| ensures next[i] == goal[i] {
      OccurrencesAppend(s, b, f[i]);
    }
  }

  /** A byte seen for the first time goes last in the table, with count 1. */
  lemma TallyAppendNew(s: seq<byte>, b: byte)
    requires b !in FirstOccurrences(s)
    ensures Tally(s + [b]) == Tally(s) + [(b, 1)]
  {
    var t, f := Tally(s), FirstOccurrences(s);
    FirstOccurrencesFacts(s);
    assert (s + [b])[..|s|] == s;
    assert FirstOccurrences(s + [b]) == f + [b];
    assert b !in multiset(s);
    OccurrencesAppend(s, b, b);
    var next := t + [(b, 1)];
    var goal := Tally(s + [b]);
    assert |next| == |goal|;
    forall i | 0 <= i < |f| ensures next[i] == goal[i] {
      OccurrencesAppend(s, b, f[i]);
    }
    assert next[|f|] == goal[|f|];
  }

  lemma {:induction false} TotalUpdate(t: Table, i: nat, p: (byte, int))
    requires i < |t|
    ensures Total(t[i := p]) == Total(t) - t[i].1 + p.1
  {
    if i > 0 {
      TotalUpdate(t[1..], i - 1, p);
      assert t[i := p][1..] == t[1..][i - 1 := p];
    }
  }

  lemma {:induction false} TotalAppend(t: Table, p: (byte, int))
    ensures Total(t + [p]) == Total(t) + p.1
  {
    if t != [] {
      TotalAppend(t[1..], p);
      assert (t + [p])[1..] == t[1..] + [p];
    }
  }

  /** The table of `s`: its keys are exactly the distinct bytes of `s`, each once;
      each count is that byte's number of occurrences (at least 1); the counts sum
      to `|s|`. */
  lemma TallyFacts(s: seq<byte>)
    ensures DistinctKeys(Tally(s))
    ensures forall b :: ContainsKey(Tally(s), b) <==> b in s
    ensures forall i | 0 <= i < |Tally(s)| :: 1 <= Tally(s)[i].1 == Occurrences(s, Tally(s)[i].0) <= |s|
    ensures Total(Tally(s)) == |s|
  {
    FirstOccurrencesFacts(s);
    TallyKeys(s);
    var t := Tally(s);
    forall i | 0 <= i < |t| ensures 1 <= t[i].1 <= |s| {
      OccurrencesBound(s, t[i].0);
    }
    TallyTotal(s);
  }

  /** A file of copies of one byte has the one entry (byte, length). */
  lemma SingleSymbolTally(data: seq<byte>)
    requires data != [] && forall i | 0 <= i < |data| :: data[i] == data[0]
    ensures Tally(data) == [(data[0], |data|)]
  {
    var t := Tally(data);
    TallyFacts(data);
    assert ContainsKey(t, data[0]);
    forall k | 0 <= k < |t| ensures t[k].0 == data[0] {
      assert ContainsKey(t, t[k].0);
    }
    var k := if |t| > 1 then 1 else 0;
    assert t[0].0 == t[k].0;
    assert t[1..] == [];
  }

  lemma {:induction false} TallyTotal(s: seq<byte>)
    ensures Total(Tally(s)) == |s|
  {
    if s != [] {
      var front, b := s[..|s| - 1], s[|s| - 1];
      assert s == front + [b];
      TallyTotal(front);
      TallyStep(front, b);
      TotalCount(Tally(front), b);
    }
  }
}
