/** The code construction of Huffman/ShannonFano/ShannonFanoProcessor.cs: the
    table ordered by descending count (`OrderByDescending(kv => kv.Value)`, a
    stable sort), the checked LINQ `Sum` of a range, the split point, and the
    codes `BuildCodeTable` stores for a range of the sorted table. */
module ShannonFanoCodes {
  import opened Base
  import opened Frequency
  import opened PrefixCodes

  // ---------------------------------------------------------------------------
  // OrderByDescending(kv => kv.Value)
  // ---------------------------------------------------------------------------

  predicate Descending(t: Table)
  {
    forall i, j | 0 <= i < j < |t| :: t[i].1 >= t[j].1
  }

  /** The entries that carry count `c`, in table order. */
  function WithCount(t: Table, c: int): Table
  {
    if t == [] then [] else (if t[0].1 == c then [t[0]] else []) + WithCount(t[1..], c)
  }

  /** Places `x` ahead of the first entry whose count is not larger than its own. */
  function Insert(x: (byte, int), s: Table): (r: Table)
    ensures |r| == |s| + 1
  {
    if s == [] || s[0].1 <= x.1 then [x] + s else [s[0]] + Insert(x, s[1..])
  }

  /** Each entry goes ahead of the equal counts that follow it in the table, so
      equal counts keep their table order. */
  function SortByCountDesc(t: Table): (r: Table)
    ensures |r| == |t|
  {
    if t == [] then [] else Insert(t[0], SortByCountDesc(t[1..]))
  }

  lemma {:induction false} InsertDescending(x: (byte, int), s: Table)
    requires Descending(s)
    ensures Descending(Insert(x, s))
    ensures Insert(x, s) != [] && (Insert(x, s)[0] == x || (s != [] && Insert(x, s)[0] == s[0]))
  {
    if s != [] && s[0].1 > x.1 {
      InsertDescending(x, s[1..]);
    }
  }

  lemma {:induction false} InsertPermutes(x: (byte, int), s: Table)
    ensures multiset(Insert(x, s)) == multiset(s) + multiset{x}
    ensures Total(Insert(x, s)) == x.1 + Total(s)
  {
    if s != [] && s[0].1 > x.1 {
      InsertPermutes(x, s[1..]);
      assert s == [s[0]] + s[1..];
      var r := Insert(x, s);
      assert r[0] == s[0] && r[1..] == Insert(x, s[1..]);
    }
  }

  lemma {:induction false} WithCountCons(x: (byte, int), s: Table, c: int)
    ensures WithCount([x] + s, c) == (if x.1 == c then [x] else []) + WithCount(s, c)
  {
    assert ([x] + s)[0] == x && ([x] + s)[1..] == s;
  }

  lemma {:induction false} InsertStable(x: (byte, int), s: Table, c: int)
    ensures WithCount(Insert(x, s), c) == (if x.1 == c then [x] else []) + WithCount(s, c)
  {
    if s == [] || s[0].1 <= x.1 {
      WithCountCons(x, s, c);
    } else {
      WithCountCons(s[0], Insert(x, s[1..]), c);
      InsertStable(x, s[1..], c);
      WithCountCons(s[0], s[1..], c);
      assert [s[0]] + s[1..] == s;
    }
  }

  lemma DistinctConsIntro(x: (byte, int), s: Table)
    requires !ContainsKey(s, x.0) && DistinctKeys(s)
    ensures DistinctKeys([x] + s)
  {
    var t := [x] + s;
    forall i, j | 0 <= i < j < |t| ensures t[i].0 != t[j].0 {
      assert t[j] == s[j - 1] && Keys(s)[j - 1] == s[j - 1].0;
      if i > 0 {
        assert t[i] == s[i - 1];
      }
    }
  }

  lemma DistinctTail(t: Table)
    requires t != [] && DistinctKeys(t)
    ensures !ContainsKey(t[1..], t[0].0) && DistinctKeys(t[1..])
  {
    assert t == [t[0]] + t[1..];
    DistinctConsElim(t[0], t[1..]);
  }

  lemma ContainsCons(t: Table, k: byte)
    requires t != []
    ensures ContainsKey(t, k) <==> k == t[0].0 || ContainsKey(t[1..], k)
  {
    assert t == [t[0]] + t[1..];
    KeysAppend([t[0]], t[1..]);
  }

  lemma DistinctConsElim(x: (byte, int), s: Table)
    requires DistinctKeys([x] + s)
    ensures !ContainsKey(s, x.0) && DistinctKeys(s)
  {
    var t := [x] + s;
    forall i | 0 <= i < |s| ensures Keys(s)[i] != x.0 {
      assert t[0] == x && t[i + 1] == s[i];
    }
    forall i, j | 0 <= i < j < |s| ensures s[i].0 != s[j].0 {
      assert s[i] == t[i + 1] && s[j] == t[j + 1];
    }
  }

  lemma InsertContains(x: (byte, int), s: Table, k: byte)
    ensures ContainsKey(Insert(x, s), k) <==> k == x.0 || ContainsKey(s, k)
  {
    InsertPermutes(x, s);
    if ContainsKey(Insert(x, s), k) {
      var i :| 0 <= i < |Insert(x, s)| && Keys(Insert(x, s))[i] == k;
      assert Insert(x, s)[i] in multiset(Insert(x, s));
      assert Insert(x, s)[i] == x || Insert(x, s)[i] in s;
      if Insert(x, s)[i] != x {
        var j :| 0 <= j < |s| && s[j] == Insert(x, s)[i];
        assert Keys(s)[j] == k;
      }
    }
    if k == x.0 {
      assert x in multiset(Insert(x, s));
      var i :| 0 <= i < |Insert(x, s)| && Insert(x, s)[i] == x;
      assert Keys(Insert(x, s))[i] == k;
    }
    if ContainsKey(s, k) {
      var j :| 0 <= j < |s| && Keys(s)[j] == k;
      assert s[j] in multiset(Insert(x, s));
      var i :| 0 <= i < |Insert(x, s)| && Insert(x, s)[i] == s[j];
      assert Keys(Insert(x, s))[i] == k;
    }
  }

  lemma {:induction false} InsertDistinct(x: (byte, int), s: Table)
    requires DistinctKeys(s) && !ContainsKey(s, x.0)
    ensures DistinctKeys(Insert(x, s))
  {
    if s == [] || s[0].1 <= x.1 {
      DistinctConsIntro(x, s);
    } else {
      assert s == [s[0]] + s[1..];
      DistinctConsElim(s[0], s[1..]);
      KeysAppend([s[0]], s[1..]);
      assert !ContainsKey(s[1..], x.0);
      InsertDistinct(x, s[1..]);
      InsertContains(x, s[1..], s[0].0);
      DistinctConsIntro(s[0], Insert(x, s[1..]));
    }
  }

  /** The sort yields a descending permutation of the table that keeps the
      table order among equal counts, with the same total. */
  lemma SortFacts(t: Table)
    ensures Descending(SortByCountDesc(t))
    ensures multiset(SortByCountDesc(t)) == multiset(t)
    ensures forall c :: WithCount(SortByCountDesc(t), c) == WithCount(t, c)
    ensures Total(SortByCountDesc(t)) == Total(t)
    ensures |SortByCountDesc(t)| == |t|
  {
    SortDescending(t);
    SortPermutes(t);
    SortStable(t);
  }

  lemma {:induction false} SortDescending(t: Table)
    ensures Descending(SortByCountDesc(t))
  {
    if t != [] {
      SortDescending(t[1..]);
      InsertDescending(t[0], SortByCountDesc(t[1..]));
    }
  }

  lemma {:induction false} SortPermutes(t: Table)
    ensures multiset(SortByCountDesc(t)) == multiset(t)
    ensures Total(SortByCountDesc(t)) == Total(t)
    ensures |SortByCountDesc(t)| == |t|
  {
    if t != [] {
      SortPermutes(t[1..]);
      InsertPermutes(t[0], SortByCountDesc(t[1..]));
      assert t == [t[0]] + t[1..];
      assert |multiset(SortByCountDesc(t))| == |multiset(t)|;
    }
  }

  /** Equal counts keep their table order. */
  lemma {:induction false} SortStable(t: Table)
    ensures forall c :: WithCount(SortByCountDesc(t), c) == WithCount(t, c)
  {
    if t != [] {
      var rest := SortByCountDesc(t[1..]);
      SortStable(t[1..]);
      assert t == [t[0]] + t[1..];
      forall c ensures WithCount(SortByCountDesc(t), c) == WithCount(t, c) {
        InsertStable(t[0], rest, c);
        WithCountCons(t[0], t[1..], c);
      }
    }
  }

  /** The sort keeps the keys, and keeps them distinct. */
  lemma SortKeys(t: Table)
    ensures forall k :: ContainsKey(SortByCountDesc(t), k) <==> ContainsKey(t, k)
    ensures DistinctKeys(t) ==> DistinctKeys(SortByCountDesc(t))
  {
    SortContains(t);
    if DistinctKeys(t) {
      SortDistinct(t);
    }
  }

  lemma {:induction false} SortContains(t: Table)
    ensures forall k :: ContainsKey(SortByCountDesc(t), k) <==> ContainsKey(t, k)
  {
    if t != [] {
      SortContains(t[1..]);
      forall k ensures ContainsKey(SortByCountDesc(t), k) <==> ContainsKey(t, k) {
        ContainsCons(t, k);
        InsertContains(t[0], SortByCountDesc(t[1..]), k);
      }
    }
  }

  lemma {:induction false} SortDistinct(t: Table)
    requires DistinctKeys(t)
    ensures DistinctKeys(SortByCountDesc(t))
  {
    if t != [] {
      DistinctTail(t);
      SortDistinct(t[1..]);
      SortContains(t[1..]);
      InsertDistinct(t[0], SortByCountDesc(t[1..]));
    }
  }

  /** A stable descending sort is determined by its input: any descending
      table whose entries of each count come in table order is the sort. */
  lemma {:induction false} SortUnique(t: Table, r: Table)
    requires Descending(r) && forall c :: WithCount(r, c) == WithCount(t, c)
    ensures r == SortByCountDesc(t)
  {
    SortFacts(t);
    DescendingUnique(r, SortByCountDesc(t));
  }

  lemma {:induction false} WithCountHead(s: Table)
    ensures s != [] ==> WithCount(s, s[0].1) != [] && WithCount(s, s[0].1)[0] == s[0]
  {
    if s != [] {
      WithCountCons(s[0], s[1..], s[0].1);
      assert [s[0]] + s[1..] == s;
    }
  }

  lemma {:induction false} WithCountBelow(s: Table, c: int)
    requires Descending(s) && s != [] && s[0].1 < c
    ensures WithCount(s, c) == []
  {
    if |s| > 1 {
      WithCountBelow(s[1..], c);
    }
    WithCountCons(s[0], s[1..], c);
    assert [s[0]] + s[1..] == s;
  }

  lemma {:induction false} WithCountEmpty(s: Table)
    ensures (forall c :: WithCount(s, c) == []) ==> s == []
  {
    WithCountHead(s);
  }

  lemma SameHead(a: Table, b: Table)
    requires Descending(a) && Descending(b) && a != [] && b != []
    requires forall c :: WithCount(a, c) == WithCount(b, c)
    ensures a[0] == b[0]
  {
    WithCountHead(a);
    WithCountHead(b);
    if a[0].1 < b[0].1 {
      WithCountBelow(a, b[0].1);
    } else if b[0].1 < a[0].1 {
      WithCountBelow(b, a[0].1);
    }
    assert a[0] == WithCount(a, a[0].1)[0];
  }

  lemma SameTail(a: Table, b: Table, c: int)
    requires a != [] && b != [] && a[0] == b[0] && WithCount(a, c) == WithCount(b, c)
    ensures WithCount(a[1..], c) == WithCount(b[1..], c)
  {
    WithCountCons(a[0], a[1..], c);
    WithCountCons(b[0], b[1..], c);
    assert [a[0]] + a[1..] == a && [b[0]] + b[1..] == b;
    var p := if a[0].1 == c then [a[0]] else [];
    assert WithCount(a[1..], c) == (p + WithCount(a[1..], c))[|p|..];
    assert WithCount(b[1..], c) == (p + WithCount(b[1..], c))[|p|..];
  }

  lemma DescendingTail(a: Table)
    requires Descending(a) && a != []
    ensures Descending(a[1..])
  {
    forall i, j | 0 <= i < j < |a| - 1 ensures a[1..][i].1 >= a[1..][j].1 {
      assert a[1..][i] == a[i + 1] && a[1..][j] == a[j + 1];
    }
  }

  /** Two descending tables with the same entries of each count, in the same order, are equal. */
  lemma {:induction false} DescendingUnique(a: Table, b: Table)
    requires Descending(a) && Descending(b)
    requires forall c :: WithCount(a, c) == WithCount(b, c)
    ensures a == b
    decreases |a| + |b|
  {
    WithCountEmpty(a);
    WithCountEmpty(b);
    if a != [] && b != [] {
      SameHead(a, b);
      forall c ensures WithCount(a[1..], c) == WithCount(b[1..], c) {
        SameTail(a, b, c);
      }
      DescendingTail(a);
      DescendingTail(b);
      DescendingUnique(a[1..], b[1..]);
      assert a == [a[0]] + a[1..] && b == [b[0]] + b[1..];
    }
  }

  // ---------------------------------------------------------------------------
  // The checked LINQ Sum and the split point
  // ---------------------------------------------------------------------------

  /** The sum of the first `k` counts. */
  function RunningSum(s: Table, k: nat): int
    requires k <= |s|
  {
    Total(s[..k])
  }

  /** LINQ `Sum` over `int`: a running sum from the front, checked at every
      step, so any partial sum outside the int range throws `OverflowException`. */
  function CheckedSum(s: Table): (r: Result<int>)
    ensures r.Failure? ==> r.error == Overflow
  {
    if s == [] then Success(0)
    else
      match CheckedSum(s[..|s| - 1])
      case Failure(e) => Failure(e)
      case Success(a) =>
        if IsInt32(a + s[|s| - 1].1) then Success(a + s[|s| - 1].1) else Failure(Overflow)
  }

  lemma TotalInit(s: Table)
    requires s != []
    ensures Total(s) == Total(s[..|s| - 1]) + s[|s| - 1].1
  {
    TotalAppend(s[..|s| - 1], s[|s| - 1]);
    assert s[..|s| - 1] + [s[|s| - 1]] == s;
  }

  /** A sum that succeeds is the total. */
  lemma {:induction false} CheckedSumValue(s: Table)
    ensures CheckedSum(s).Success? ==> CheckedSum(s).value == Total(s)
  {
    if s != [] {
      CheckedSumValue(s[..|s| - 1]);
      TotalInit(s);
    }
  }

  /** The sum succeeds exactly when every partial sum fits in an int, and then it is the total. */
  lemma {:induction false} CheckedSumFacts(s: Table)
    ensures CheckedSum(s).Success? ==> CheckedSum(s).value == Total(s)
    ensures CheckedSum(s).Success? <==> forall k | 0 <= k <= |s| :: IsInt32(RunningSum(s, k))
  {
    if s != [] {
      var init := s[..|s| - 1];
      CheckedSumFacts(init);
      TotalInit(s);
      forall k | 0 <= k <= |init| ensures RunningSum(init, k) == RunningSum(s, k) {
        assert init[..k] == s[..k];
      }
      assert s[..|s|] == s;
      assert RunningSum(s, |s|) == Total(s);
      var ok := forall k | 0 <= k <= |s| :: IsInt32(RunningSum(s, k));
      assert ok <==> (forall k | 0 <= k <= |init| :: IsInt32(RunningSum(init, k))) && IsInt32(Total(s));
    } else {
      assert s[..0] == [];
    }
  }

  /** One more entry adds its count to the running sum. */
  lemma RunningSumStep(s: Table, k: nat)
    requires k < |s|
    ensures RunningSum(s, k + 1) == RunningSum(s, k) + s[k].1
  {
    TotalInit(s[..k + 1]);
    assert s[..k + 1][..k] == s[..k];
  }

  /** The loop of `BuildCodeTable` from index `k` on, with `acc` the sum so
      far: the first index at which `acc` plus its count reaches `half`, if
      there is one. */
  function FirstReach(seg: Table, half: int, k: nat, acc: int): (r: Option<nat>)
    requires k <= |seg|
    ensures r.Some? ==> k <= r.value < |seg|
    decreases |seg| - k
  {
    if k == |seg| then None
    else if acc + seg[k].1 >= half then Some(k)
    else FirstReach(seg, half, k + 1, acc + seg[k].1)
  }

  /** Started with the running sum so far, the index found is the first from
      `k` on to reach `half`: the running sum up to and including it reaches
      `half` and no earlier one does. */
  lemma {:induction false} FirstReachFacts(seg: Table, half: int, k: nat, acc: int)
    requires k <= |seg| && acc == RunningSum(seg, k)
    ensures FirstReach(seg, half, k, acc).Some? ==> RunningSum(seg, FirstReach(seg, half, k, acc).value + 1) >= half
    ensures forall j | k < j <= |seg| && (FirstReach(seg, half, k, acc).None? || j <= FirstReach(seg, half, k, acc).value) ::
      RunningSum(seg, j) < half
    decreases |seg| - k
  {
    if k < |seg| {
      RunningSumStep(seg, k);
      if acc + seg[k].1 < half {
        FirstReachFacts(seg, half, k + 1, acc + seg[k].1);
      }
    }
  }

  /** `split - start` for the range `seg` whose sum is `total`: the break
      index, or 0 (`split = start`) when the loop runs to the end. */
  function SplitOffset(seg: Table, total: int): (r: nat)
    ensures seg != [] ==> r < |seg|
  {
    match FirstReach(seg, Half(total), 0, 0)
    case None => 0
    case Some(j) => j
  }

  lemma {:induction false} TotalAtLeast(s: Table, m: int)
    requires forall i | 0 <= i < |s| :: s[i].1 >= m
    ensures Total(s) >= |s| * m
  {
    if s != [] {
      TotalAtLeast(s[1..], m);
    }
  }

  lemma {:induction false} TotalAtMost(s: Table, m: int)
    requires forall i | 0 <= i < |s| :: s[i].1 <= m
    ensures Total(s) <= |s| * m
  {
    if s != [] {
      TotalAtMost(s[1..], m);
    }
  }

  lemma Double(n: int, m: int)
    requires n >= 2
    ensures m >= 0 ==> n * m >= 2 * m
    ensures m < 0 ==> n * m <= 2 * m
  {
  }

  /** A total of at least 0: the sum without the last (smallest) entry reaches half of it. */
  lemma ReachBeforeLast(seg: Table)
    requires Descending(seg) && |seg| >= 2 && Total(seg) >= 0
    ensures RunningSum(seg, |seg| - 1) >= Half(Total(seg))
  {
    var last := seg[|seg| - 1].1;
    TotalInit(seg);
    TotalAtLeast(seg, last);
    Double(|seg|, last);
  }

  /** A negative total: the first (largest) entry alone reaches half of it. */
  lemma ReachAtFirst(seg: Table)
    requires Descending(seg) && |seg| >= 2 && Total(seg) < 0
    ensures RunningSum(seg, 1) >= Half(Total(seg))
  {
    var first := seg[0].1;
    assert Total(seg[..1]) == first by {
      assert seg[..1][1..] == [];
    }
    TotalAtMost(seg, first);
    Double(|seg|, first);
  }

  /** For a descending range of at least two entries the split leaves both
      halves non-empty: `start <= split < end`. */
  lemma SplitBound(seg: Table)
    requires Descending(seg) && |seg| >= 2
    ensures SplitOffset(seg, Total(seg)) < |seg| - 1
  {
    assert seg[..0] == [];
    FirstReachFacts(seg, Half(Total(seg)), 0, 0);
    if Total(seg) >= 0 {
      ReachBeforeLast(seg);
    } else {
      ReachAtFirst(seg);
    }
  }

  // ---------------------------------------------------------------------------
  // BuildCodeTable(sortedFreqs, start, end, prefix)
  // ---------------------------------------------------------------------------

  lemma DescendingSlice(s: Table, i: nat, j: nat)
    requires Descending(s) && i <= j <= |s|
    ensures Descending(s[i..j])
  {
    assert forall k | 0 <= k < j - i :: s[i..j][k] == s[i + k];
  }

  /** The entries `Skip(start).Take(end - start + 1)` of a range, which are
      none when `end < start`. */
  function Range(sorted: Table, start: nat, end: int): (r: Table)
    requires start <= |sorted| && end < |sorted|
    ensures |r| == if end < start then 0 else end - start + 1
  {
    if end < start then [] else sorted[start..end + 1]
  }

  /** `split` for a range with `start != end`: the checked sum of the range
      and the first index of the loop whose running sum reaches half of it,
      or `start` when none does (always so for an empty range). */
  function Split(sorted: Table, start: nat, end: int): (r: Result<nat>)
    requires start <= |sorted| && end < |sorted|
    ensures r.Success? ==> start <= r.value && (start <= end ==> r.value <= end)
    ensures r.Failure? ==> r.error == Overflow
    ensures end < start ==> r == Success(start)
  {
    var seg := Range(sorted, start, end);
    match CheckedSum(seg)
    case Failure(e) => Failure(e)
    case Success(total) => Success(start + SplitOffset(seg, total))
  }

  /** On a descending table the split of a range of two or more entries
      leaves both halves non-empty. */
  lemma SplitInside(sorted: Table, start: nat, end: nat)
    requires Descending(sorted) && start < end < |sorted|
    ensures Split(sorted, start, end).Success? ==> Split(sorted, start, end).value < end
  {
    var seg := sorted[start..end + 1];
    if CheckedSum(seg).Success? {
      DescendingSlice(sorted, start, end + 1);
      CheckedSumValue(seg);
      SplitBound(seg);
    }
  }

  /** The entries `BuildCodeTable(sortedFreqs, start, end, prefix)` stores, or
      the exception it raises. A one-entry range gets `prefix`, or "0" when
      `prefix` is empty; any other range is split and its halves get
      `prefix + "0"` and `prefix + "1"`; the right half's stores come later,
      so its entries win a clash. Indexing `sortedFreqs` at its length throws
      `ArgumentOutOfRangeException`. A split at `end` (only a table that is not
      descending allows one) repeats the same range forever. */
  function CodesFor(sorted: Table, start: nat, end: int, prefix: string): (r: Result<map<byte, string>>)
    requires start <= |sorted| && (end < |sorted| || end == start)
    ensures r.Failure? ==> r.error == ArgumentOutOfRange || r.error == Overflow || r.error == StackOverflow
    decreases |sorted| - start, if end < start then 1 else 0, end - start, 1
  {
    if start == end then
      if start == |sorted| then Failure(ArgumentOutOfRange)
      else Success(map[sorted[start].0 := if prefix == "" then "0" else prefix])
    else
      match Split(sorted, start, end)
      case Failure(e) => Failure(e)
      case Success(split) =>
        if split == end then Failure(StackOverflow)
        else Halves(sorted, start, split, end, prefix)
  }

  /** The two recursive calls of `BuildCodeTable` once `split` is known: the
      left half `start..split` under `prefix + "0"`, then the right half
      `split + 1..end` under `prefix + "1"`. */
  function Halves(sorted: Table, start: nat, split: nat, end: int, prefix: string): (r: Result<map<byte, string>>)
    requires start <= split <= |sorted| && end < |sorted|
    requires (start <= split < end) || (end < start && split == start)
    ensures r.Failure? ==> r.error == ArgumentOutOfRange || r.error == Overflow || r.error == StackOverflow
    decreases |sorted| - start, if end < start then 1 else 0, end - start, 0
  {
    match CodesFor(sorted, start, split, prefix + "0")
    case Failure(e) => Failure(e)
    case Success(left) =>
      assert split < |sorted|;
      match CodesFor(sorted, split + 1, end, prefix + "1")
      case Failure(e) => Failure(e)
      case Success(right) => Success(left + right)
  }

  /** The code table built for a (sorted) frequency table:
      `BuildCodeTable(sorted, 0, sorted.Count - 1, "")`. An empty table makes
      it throw `ArgumentOutOfRangeException`. */
  function RootCodes(sorted: Table): (r: Result<map<byte, string>>)
    ensures r.Failure? ==> r.error == ArgumentOutOfRange || r.error == Overflow || r.error == StackOverflow
    ensures sorted == [] ==> r == Failure(ArgumentOutOfRange)
  {
    if sorted == [] then
      OverrunFails(sorted, 0, -1, "");
      CodesFor(sorted, 0, -1, "")
    else
      CodesFor(sorted, 0, |sorted| - 1, "")
  }

  /** A range with `end < start` always ends in `ArgumentOutOfRangeException`:
      each level stores `sortedFreqs[start]` and moves one entry on, until
      `start` reaches the end of the list. */
  lemma {:induction false} OverrunFails(sorted: Table, start: nat, end: int, prefix: string)
    requires start <= |sorted| && end < start
    ensures CodesFor(sorted, start, end, prefix) == Failure(ArgumentOutOfRange)
    decreases |sorted| - start
  {
    assert Split(sorted, start, end) == Success(start);
    assert CodesFor(sorted, start, end, prefix) == Halves(sorted, start, start, end, prefix);
    if start < |sorted| {
      assert CodesFor(sorted, start, start, prefix + "0").Success?;
      OverrunFails(sorted, start + 1, end, prefix + "1");
    }
  }

  /** A range that is not a single index, once its split point is known. */
  lemma CodesForAt(sorted: Table, start: nat, end: int, prefix: string, split: nat)
    requires start <= |sorted| && end < |sorted| && start != end
    requires Split(sorted, start, end) == Success(split)
    ensures split != end ==> (start <= split < end) || (end < start && split == start)
    ensures CodesFor(sorted, start, end, prefix) ==
      if split == end then Failure(StackOverflow) else Halves(sorted, start, split, end, prefix)
  {
  }

  /** The two halves in turn: the first failure wins, else the union. */
  lemma HalvesAt(sorted: Table, start: nat, split: nat, end: int, prefix: string)
    requires start <= split <= |sorted| && end < |sorted|
    requires (start <= split < end) || (end < start && split == start)
    ensures CodesFor(sorted, start, split, prefix + "0").Failure? ==>
      Halves(sorted, start, split, end, prefix) == Failure(CodesFor(sorted, start, split, prefix + "0").error)
    ensures CodesFor(sorted, start, split, prefix + "0").Success? ==> split < |sorted|
    ensures CodesFor(sorted, start, split, prefix + "0").Success? ==>
      var right := CodesFor(sorted, split + 1, end, prefix + "1");
      Halves(sorted, start, split, end, prefix) ==
        if right.Failure? then Failure(right.error)
        else Success(CodesFor(sorted, start, split, prefix + "0").value + right.value)
  {
  }

  /** A range of two or more entries that builds: its split point. */
  lemma SplitOf(sorted: Table, start: nat, end: int, prefix: string, codes: map<byte, string>) returns (split: nat)
    requires start < end < |sorted|
    requires CodesFor(sorted, start, end, prefix) == Success(codes)
    ensures start <= split < end
    ensures Halves(sorted, start, split, end, prefix) == Success(codes)
  {
    var sp := Split(sorted, start, end);
    var whole := CodesFor(sorted, start, end, prefix);
    assert sp.Failure? ==> whole.Failure?;
    split := sp.value;
    assert split == end ==> whole.Failure?;
  }

  /** The halves of a split range that builds, and their codes. */
  lemma HalvesParts(sorted: Table, start: nat, split: nat, end: int, prefix: string, codes: map<byte, string>)
    returns (left: map<byte, string>, right: map<byte, string>)
    requires start <= split < end < |sorted|
    requires Halves(sorted, start, split, end, prefix) == Success(codes)
    ensures CodesFor(sorted, start, split, prefix + "0") == Success(left)
    ensures CodesFor(sorted, split + 1, end, prefix + "1") == Success(right)
    ensures codes == left + right
  {
    var l := CodesFor(sorted, start, split, prefix + "0");
    var r := CodesFor(sorted, split + 1, end, prefix + "1");
    var whole := Halves(sorted, start, split, end, prefix);
    assert l.Failure? ==> whole.Failure?;
    assert r.Failure? ==> whole.Failure?;
    left, right := l.value, r.value;
  }

  /** The symbols stored in `codes` are exactly the keys of `t`. */
  predicate Covers(codes: map<byte, string>, t: Table)
  {
    forall k :: k in codes <==> ContainsKey(t, k)
  }

  /** Every code in `codes` starts with `prefix` and is non-empty; a binary
      `prefix` gives binary codes. */
  predicate Extends(codes: map<byte, string>, prefix: string)
  {
    forall k | k in codes :: IsPrefix(prefix, codes[k]) && codes[k] != [] && (IsBinary(prefix) ==> IsBinary(codes[k]))
  }

  /** The keys of the halves make up the keys of the range. */
  lemma KeysUnion(sorted: Table, start: nat, split: nat, end: nat, left: map<byte, string>, right: map<byte, string>,
                  codes: map<byte, string>)
    requires start <= split < end < |sorted| && codes == left + right
    requires Covers(left, sorted[start..split + 1]) && Covers(right, sorted[split + 1..end + 1])
    ensures Covers(codes, sorted[start..end + 1])
  {
    assert sorted[start..end + 1] == sorted[start..split + 1] + sorted[split + 1..end + 1];
    KeysAppend(sorted[start..split + 1], sorted[split + 1..end + 1]);
  }

  /** The symbols that get a code are exactly the keys of the range. */
  lemma {:induction false} CodesKeys(sorted: Table, start: nat, end: int, prefix: string, codes: map<byte, string>)
    requires start <= end < |sorted|
    requires CodesFor(sorted, start, end, prefix) == Success(codes)
    ensures Covers(codes, sorted[start..end + 1])
    decreases end - start, 1
  {
    if start == end {
      assert Keys(sorted[start..end + 1]) == [sorted[start].0];
    } else {
      var split := SplitOf(sorted, start, end, prefix, codes);
      HalvesKeys(sorted, start, split, end, prefix, codes);
    }
  }

  lemma {:induction false} HalvesKeys(sorted: Table, start: nat, split: nat, end: int, prefix: string, codes: map<byte, string>)
    requires start <= split < end < |sorted|
    requires Halves(sorted, start, split, end, prefix) == Success(codes)
    ensures Covers(codes, sorted[start..end + 1])
    decreases end - start, 0
  {
    var left, right := HalvesParts(sorted, start, split, end, prefix, codes);
    CodesKeys(sorted, start, split, prefix + "0", left);
    CodesKeys(sorted, split + 1, end, prefix + "1", right);
    KeysUnion(sorted, start, split, end, left, right, codes);
  }

  /** Every code of `left + right` extends `prefix` when those of the halves extend `prefix + "0"` and `prefix + "1"`. */
  lemma ExtendUnion(left: map<byte, string>, right: map<byte, string>, prefix: string, codes: map<byte, string>)
    requires Extends(left, prefix + "0") && Extends(right, prefix + "1") && codes == left + right
    ensures Extends(codes, prefix)
  {
    forall k | k in codes
      ensures IsPrefix(prefix, codes[k]) && codes[k] != [] && (IsBinary(prefix) ==> IsBinary(codes[k]))
    {
      var c := if k in right then prefix + "1" else prefix + "0";
      assert IsPrefix(c, codes[k]);
      assert codes[k][..|prefix|] == c[..|prefix|];
      if IsBinary(prefix) {
        assert IsBinary(c);
      }
    }
  }

  /** Every code stored for a range starts with `prefix` and is non-empty;
      a binary prefix gives binary codes. */
  lemma {:induction false} CodesExtend(sorted: Table, start: nat, end: int, prefix: string, codes: map<byte, string>)
    requires start <= end < |sorted|
    requires CodesFor(sorted, start, end, prefix) == Success(codes)
    ensures Extends(codes, prefix)
    decreases end - start, 1
  {
    if start == end {
      assert IsPrefix(prefix, prefix);
    } else {
      var split := SplitOf(sorted, start, end, prefix, codes);
      HalvesExtend(sorted, start, split, end, prefix, codes);
    }
  }

  lemma {:induction false} HalvesExtend(sorted: Table, start: nat, split: nat, end: int, prefix: string, codes: map<byte, string>)
    requires start <= split < end < |sorted|
    requires Halves(sorted, start, split, end, prefix) == Success(codes)
    ensures Extends(codes, prefix)
    decreases end - start, 0
  {
    var left, right := HalvesParts(sorted, start, split, end, prefix, codes);
    CodesExtend(sorted, start, split, prefix + "0", left);
    CodesExtend(sorted, split + 1, end, prefix + "1", right);
    ExtendUnion(left, right, prefix, codes);
  }

  lemma UnionPrefixFree(left: map<byte, string>, right: map<byte, string>, prefix: string)
    requires PrefixFree(left) && PrefixFree(right)
    requires forall k | k in left :: k !in right
    requires Extends(left, prefix + "0") && Extends(right, prefix + "1")
    ensures PrefixFree(left + right)
  {
    var m := left + right;
    forall a, b | a in m && b in m && a != b ensures !IsPrefix(m[a], m[b]) {
      if a in left && b in right {
        assert m[a] == left[a] && m[b] == right[b];
        assert m[a][|prefix|] == (prefix + "0")[|prefix|] != (prefix + "1")[|prefix|] == m[b][|prefix|];
      } else if a in right && b in left {
        assert m[a] == right[a] && m[b] == left[b];
        assert m[a][|prefix|] == (prefix + "1")[|prefix|] != (prefix + "0")[|prefix|] == m[b][|prefix|];
      }
    }
  }

  /** With distinct keys, the halves of a range store disjoint sets of symbols. */
  lemma DisjointHalves(sorted: Table, start: nat, split: nat, end: nat, left: map<byte, string>, right: map<byte, string>)
    requires DistinctKeys(sorted) && start <= split < end < |sorted|
    requires Covers(left, sorted[start..split + 1]) && Covers(right, sorted[split + 1..end + 1])
    ensures forall k | k in left :: k !in right
  {
    var ls := sorted[start..split + 1];
    var rs := sorted[split + 1..end + 1];
    forall k | k in left ensures k !in right {
      var i := KeyIndex(ls, k);
      forall j | 0 <= j < |rs| ensures Keys(rs)[j] != k {
        assert ls[i] == sorted[start + i];
        assert rs[j] == sorted[split + 1 + j];
      }
    }
  }

  /** With distinct keys, no code stored for a range is a prefix of another. */
  lemma {:induction false} CodesPrefixFree(sorted: Table, start: nat, end: int, prefix: string, codes: map<byte, string>)
    requires DistinctKeys(sorted) && start <= end < |sorted|
    requires CodesFor(sorted, start, end, prefix) == Success(codes)
    ensures PrefixFree(codes)
    decreases end - start, 1
  {
    if start < end {
      var split := SplitOf(sorted, start, end, prefix, codes);
      HalvesPrefixFree(sorted, start, split, end, prefix, codes);
    }
  }

  lemma {:induction false} HalvesPrefixFree(sorted: Table, start: nat, split: nat, end: int, prefix: string, codes: map<byte, string>)
    requires DistinctKeys(sorted) && start <= split < end < |sorted|
    requires Halves(sorted, start, split, end, prefix) == Success(codes)
    ensures PrefixFree(codes)
    decreases end - start, 0
  {
    var left, right := HalvesParts(sorted, start, split, end, prefix, codes);
    CodesPrefixFree(sorted, start, split, prefix + "0", left);
    CodesPrefixFree(sorted, split + 1, end, prefix + "1", right);
    JoinPrefixFree(sorted, start, split, end, prefix, left, right);
  }

  /** Two prefix-free halves built under `prefix + "0"` and `prefix + "1"`
      form a prefix-free union. */
  lemma JoinPrefixFree(sorted: Table, start: nat, split: nat, end: nat, prefix: string,
                         left: map<byte, string>, right: map<byte, string>)
    requires DistinctKeys(sorted) && start <= split < end < |sorted|
    requires CodesFor(sorted, start, split, prefix + "0") == Success(left)
    requires CodesFor(sorted, split + 1, end, prefix + "1") == Success(right)
    requires PrefixFree(left) && PrefixFree(right)
    ensures PrefixFree(left + right)
  {
    CodesKeys(sorted, start, split, prefix + "0", left);
    CodesKeys(sorted, split + 1, end, prefix + "1", right);
    CodesExtend(sorted, start, split, prefix + "0", left);
    CodesExtend(sorted, split + 1, end, prefix + "1", right);
    DisjointHalves(sorted, start, split, end, left, right);
    UnionPrefixFree(left, right, prefix);
  }

  // ---------------------------------------------------------------------------
  // When the sums fit
  // ---------------------------------------------------------------------------

  lemma {:induction false} TotalConcat(a: Table, b: Table)
    ensures Total(a + b) == Total(a) + Total(b)
  {
    if a != [] {
      assert (a + b)[0] == a[0] && (a + b)[1..] == a[1..] + b;
      TotalConcat(a[1..], b);
      assert Total(a + b) == a[0].1 + Total(a[1..] + b);
    } else {
      assert a + b == b;
    }
  }

  lemma {:induction false} TotalNonNegative(s: Table)
    requires forall i | 0 <= i < |s| :: s[i].1 >= 0
    ensures Total(s) >= 0
  {
    if s != [] {
      TotalNonNegative(s[1..]);
    }
  }

  /** With non-negative counts, a slice sums to between 0 and the whole total. */
  lemma SliceTotalBound(s: Table, i: nat, j: nat)
    requires i <= j <= |s| && forall k | 0 <= k < |s| :: s[k].1 >= 0
    ensures 0 <= Total(s[i..j]) <= Total(s)
  {
    assert s == s[..i] + (s[i..j] + s[j..]);
    TotalConcat(s[..i], s[i..j] + s[j..]);
    TotalConcat(s[i..j], s[j..]);
    TotalNonNegative(s[..i]);
    TotalNonNegative(s[i..j]);
    TotalNonNegative(s[j..]);
  }

  /** With non-negative counts whose total fits in an int, the checked sum of any range succeeds. */
  lemma SliceSumFits(sorted: Table, i: nat, j: nat)
    requires i <= j <= |sorted|
    requires forall k | 0 <= k < |sorted| :: sorted[k].1 >= 0
    requires Total(sorted) <= Int32Max
    ensures CheckedSum(sorted[i..j]).Success?
  {
    var seg := sorted[i..j];
    SliceTotalBound(sorted, i, j);
    forall k | 0 <= k <= |seg| ensures IsInt32(RunningSum(seg, k)) {
      SliceTotalBound(seg, 0, k);
      assert seg[0..k] == seg[..k];
    }
    CheckedSumFacts(seg);
  }

  /** Non-negative counts with a total that fits: the build succeeds on every
      non-empty range. */
  lemma {:induction false} CodesSucceed(sorted: Table, start: nat, end: int, prefix: string)
    requires Descending(sorted) && start <= end < |sorted|
    requires forall k | 0 <= k < |sorted| :: sorted[k].1 >= 0
    requires Total(sorted) <= Int32Max
    ensures CodesFor(sorted, start, end, prefix).Success?
    decreases end - start, 1
  {
    if start < end {
      SliceSumFits(sorted, start, end + 1);
      SplitInside(sorted, start, end);
      var split := Split(sorted, start, end).value;
      HalvesSucceed(sorted, start, split, end, prefix);
    }
  }

  lemma {:induction false} HalvesSucceed(sorted: Table, start: nat, split: nat, end: int, prefix: string)
    requires Descending(sorted) && start <= split < end < |sorted|
    requires forall k | 0 <= k < |sorted| :: sorted[k].1 >= 0
    requires Total(sorted) <= Int32Max
    ensures Halves(sorted, start, split, end, prefix).Success?
    decreases end - start, 0
  {
    CodesSucceed(sorted, start, split, prefix + "0");
    CodesSucceed(sorted, split + 1, end, prefix + "1");
  }

  /** The build from the root succeeds on any non-empty descending table of
      non-negative counts whose sum fits an `int`. */
  lemma RootCodesSucceed(sorted: Table)
    requires Descending(sorted) && sorted != []
    requires forall k | 0 <= k < |sorted| :: sorted[k].1 >= 0
    requires Total(sorted) <= Int32Max
    ensures RootCodes(sorted).Success?
  {
    CodesSucceed(sorted, 0, |sorted| - 1, "");
  }

  /** The code table of a non-empty table with distinct keys: one non-empty
      binary code per key, no code a prefix of another. */
  lemma RootCodesFacts(sorted: Table, codes: map<byte, string>)
    requires DistinctKeys(sorted) && sorted != []
    requires RootCodes(sorted) == Success(codes)
    ensures forall k :: k in codes <==> ContainsKey(sorted, k)
    ensures forall k | k in codes :: codes[k] != [] && IsBinary(codes[k])
    ensures PrefixFree(codes)
  {
    CodesKeys(sorted, 0, |sorted| - 1, "", codes);
    CodesExtend(sorted, 0, |sorted| - 1, "", codes);
    CodesPrefixFree(sorted, 0, |sorted| - 1, "", codes);
    assert sorted[0..|sorted|] == sorted;
  }

  /** A one-entry table gets the code "0". */
  lemma SingleEntryCode(x: (byte, int))
    ensures RootCodes([x]) == Success(map[x.0 := "0"])
  {
  }
}
