/** Past median time, blockchain/blockindex.go. */
module MedianTime {
  import opened Common
  import opened BlockTree

  const MEDIAN_TIME_BLOCKS: nat := 11

  /** The timestamps of a node and its nearest ancestors, `k` at most. */
  function Recent(n: BlockNode, k: nat): (s: seq<int>)
    ensures |s| == if k <= n.Height() then k else n.Height() + 1
    decreases n
  {
    if k == 0 then []
    else if n.Genesis? then [n.block.timestamp]
    else [n.block.timestamp] + Recent(n.parent, k - 1)
  }

  function Insert(x: int, s: seq<int>): (r: seq<int>)
    ensures |r| == |s| + 1
  {
    if s == [] || x <= s[0] then [x] + s else [s[0]] + Insert(x, s[1..])
  }

  /** The sorted arrangement of a sequence. */
  function Sort(s: seq<int>): (r: seq<int>)
    ensures |r| == |s|
  {
    if s == [] then [] else Insert(s[0], Sort(s[1..]))
  }

  predicate Ascending(s: seq<int>) {
    forall i, j :: 0 <= i < j < |s| ==> s[i] <= s[j]
  }

  /** The median the consensus rules use: the upper middle of the recent timestamps. */
  function PastMedian(n: BlockNode): int {
    var times := Sort(Recent(n, MEDIAN_TIME_BLOCKS));
    times[|times| / 2]
  }

  /** How many entries are below `m`. */
  function CountBelow(s: seq<int>, m: int): (c: nat)
    ensures c <= |s|
  {
    if s == [] then 0 else (if s[0] < m then 1 else 0) + CountBelow(s[1..], m)
  }

  lemma {:induction false} InsertAtLeast(x: int, s: seq<int>, m: int)
    requires m <= x && forall i :: 0 <= i < |s| ==> m <= s[i]
    ensures forall i :: 0 <= i < |Insert(x, s)| ==> m <= Insert(x, s)[i]
  {
    if s != [] && x > s[0] {
      InsertAtLeast(x, s[1..], m);
    }
  }

  lemma {:induction false} InsertAscending(x: int, s: seq<int>)
    requires Ascending(s)
    ensures Ascending(Insert(x, s))
  {
    if s != [] && x > s[0] {
      InsertAscending(x, s[1..]);
      InsertAtLeast(x, s[1..], s[0]);
    }
  }

  lemma {:induction false} InsertElements(x: int, s: seq<int>)
    ensures multiset(Insert(x, s)) == multiset{x} + multiset(s)
  {
    if s != [] && x > s[0] {
      InsertElements(x, s[1..]);
      assert s == [s[0]] + s[1..];
    }
  }

  /** Sorting is an ascending rearrangement. */
  lemma {:induction false} SortAscending(s: seq<int>)
    ensures Ascending(Sort(s)) && multiset(Sort(s)) == multiset(s)
  {
    if s != [] {
      SortAscending(s[1..]);
      InsertAscending(s[0], Sort(s[1..]));
      InsertElements(s[0], Sort(s[1..]));
      assert s == [s[0]] + s[1..];
    }
  }

  lemma {:induction false} CountBelowInsert(x: int, s: seq<int>, m: int)
    ensures CountBelow(Insert(x, s), m) == CountBelow(s, m) + if x < m then 1 else 0
  {
    if s != [] && x > s[0] {
      CountBelowInsert(x, s[1..], m);
      assert Insert(x, s)[1..] == Insert(x, s[1..]);
    } else {
      assert Insert(x, s)[1..] == s;
    }
  }

  lemma {:induction false} CountBelowSort(s: seq<int>, m: int)
    ensures CountBelow(Sort(s), m) == CountBelow(s, m)
  {
    if s != [] {
      CountBelowSort(s[1..], m);
      CountBelowInsert(s[0], Sort(s[1..]), m);
    }
  }

  /** In an ascending sequence, entry `k` is at least `m` just when at most `k` entries are below `m`. */
  lemma {:induction false} RankOfEntry(s: seq<int>, k: nat, m: int)
    requires Ascending(s) && k < |s|
    ensures m <= s[k] <==> CountBelow(s, m) <= k
  {
    if s[0] >= m {
      NoneBelow(s, m);
    } else if k > 0 {
      RankOfEntry(s[1..], k - 1, m);
    }
  }

  lemma {:induction false} NoneBelow(s: seq<int>, m: int)
    requires forall i :: 0 <= i < |s| ==> s[i] >= m
    ensures CountBelow(s, m) == 0
  {
    if s != [] {
      NoneBelow(s[1..], m);
    }
  }

  /** The median is the largest value with at most half of the recent timestamps below it. */
  lemma PastMedianRank(n: BlockNode, m: int)
    ensures m <= PastMedian(n) <==>
      CountBelow(Recent(n, MEDIAN_TIME_BLOCKS), m) <= |Recent(n, MEDIAN_TIME_BLOCKS)| / 2
  {
    var times := Recent(n, MEDIAN_TIME_BLOCKS);
    SortAscending(times);
    CountBelowSort(times, m);
    RankOfEntry(Sort(times), |times| / 2, m);
  }

  /** Dropping the last timestamp of a window drops at most one entry. */
  lemma {:induction false} CountBelowShrink(n: BlockNode, k: nat, m: int)
    ensures CountBelow(Recent(n, k), m) <= CountBelow(Recent(n, k + 1), m)
    decreases n
  {
    if k > 0 && n.Child? {
      CountBelowShrink(n.parent, k - 1, m);
      assert Recent(n, k)[1..] == Recent(n.parent, k - 1);
      assert Recent(n, k + 1)[1..] == Recent(n.parent, k);
    }
  }

  /** A block stamped after its parent's past median does not lower the past median,
      while the window is filling and once it slides. */
  lemma MedianStep(n: BlockNode)
    requires n.Child? && n.block.timestamp > PastMedian(n.parent)
    ensures PastMedian(n.parent) <= PastMedian(n)
  {
    var m := PastMedian(n.parent);
    PastMedianRank(n.parent, m);
    PastMedianRank(n, m);
    CountBelowShrink(n.parent, MEDIAN_TIME_BLOCKS - 1, m);
    assert Recent(n, MEDIAN_TIME_BLOCKS)[1..] == Recent(n.parent, MEDIAN_TIME_BLOCKS - 1);
  }

  /** Every block of the path above `a` is stamped after its parent's past median. */
  ghost predicate TimelyAbove(a: BlockNode, n: BlockNode)
    requires a.IsAncestorOf(n)
  {
    forall h: nat :: a.Height() < h <= n.Height() ==>
      n.At(h).block.timestamp > PastMedian(n.At(h - 1))
  }

  /** Past median time never decreases along a chain whose blocks are stamped after the past median. */
  lemma {:induction false} MedianNeverDecreases(a: BlockNode, n: BlockNode)
    requires a.IsAncestorOf(n) && TimelyAbove(a, n)
    ensures PastMedian(a) <= PastMedian(n)
  {
    if a.Height() < n.Height() {
      assert n.At(n.Height()) == n && n.At(n.Height() - 1) == n.parent;
      MedianStep(n);
      assert TimelyAbove(a, n.parent) by {
        forall h: nat | a.Height() < h <= n.parent.Height()
          ensures n.parent.At(h).block.timestamp > PastMedian(n.parent.At(h - 1))
        {
          assert n.At(h) == n.parent.At(h) && n.At(h - 1) == n.parent.At(h - 1);
        }
      }
      MedianNeverDecreases(a, n.parent);
    }
  }

  lemma RecentStep(n: BlockNode, k: nat)
    requires k > 0
    ensures Recent(n, k) == [n.block.timestamp] + if n.Genesis? then [] else Recent(n.parent, k - 1)
  {
  }

  /** Fills the buffer with recent timestamps and says how many there were. */
  method CollectTimestamps(node: BlockNode, timestamps: array<int>) returns (numNodes: nat)
    modifies timestamps
    ensures numNodes <= timestamps.Length
    ensures timestamps[..numNodes] == Recent(node, timestamps.Length)
  {
    hide Recent;
    numNodes := 0;
    var iterNode := Some(node);
    ghost var all := Recent(node, timestamps.Length);
    while numNodes < timestamps.Length && iterNode.Some?
      invariant 0 <= numNodes <= timestamps.Length && numNodes <= |all|
      invariant timestamps[..numNodes] == all[..numNodes]
      invariant all[numNodes..] == if iterNode.None? then [] else Recent(iterNode.value, timestamps.Length - numNodes)
      decreases timestamps.Length - numNodes
    {
      var n := iterNode.value;
      RecentStep(n, timestamps.Length - numNodes);
      assert all[numNodes] == all[numNodes..][0] == n.block.timestamp;
      timestamps[numNodes] := n.block.timestamp;
      numNodes := numNodes + 1;
      assert all[numNodes..] == all[numNodes - 1..][1..];
      iterNode := if n.Genesis? then None else Some(n.parent);
    }
  }

  /** Collects the recent timestamps, sorts them and takes the upper middle one. */
  method CalcPastMedianTime(node: BlockNode) returns (t: int)
    ensures t == PastMedian(node)
  {
    var timestamps := new int[MEDIAN_TIME_BLOCKS];
    var numNodes := CollectTimestamps(node, timestamps);
    var sorted := Sort(timestamps[..numNodes]);
    return sorted[numNodes / 2];
  }
}
