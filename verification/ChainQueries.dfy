/**
 Queries over the block index and the best-chain view, blockchain/chain.go:
 locating inventory from a locator, and checkpoint-interval hashes.
 */
module ChainQueries {
  import opened Common
  import opened BlockTree
  import opened ChainViews
  import opened Locators

  /** Every node of the path of `n` is found under its own hash. */
  ghost predicate Indexed(index: map<Hash, BlockNode>, n: BlockNode) {
    forall h: nat :: h <= n.Height() ==> n.At(h).Hash() in index && index[n.At(h).Hash()] == n.At(h)
  }

  /** A locator entry that names a known block of the main chain. */
  predicate KnownEntry(index: map<Hash, BlockNode>, branch: seq<BlockNode>, hash: Hash) {
    hash in index && InView(branch, index[hash])
  }

  /** The block a search starts after: the first known main-chain entry, else genesis. */
  function StartAfter(index: map<Hash, BlockNode>, branch: seq<BlockNode>, locator: seq<Hash>): (r: BlockNode)
    requires IsBranch(branch) && branch != []
    ensures InView(branch, r)
  {
    if locator == [] then PathStep(branch[|branch| - 1], 0); branch[0]
    else if KnownEntry(index, branch, locator[0]) then index[locator[0]]
    else StartAfter(index, branch, locator[1..])
  }

  lemma {:induction false} StartAfterFirst(index: map<Hash, BlockNode>, branch: seq<BlockNode>, locator: seq<Hash>, j: nat)
    requires IsBranch(branch) && branch != [] && j < |locator| && KnownEntry(index, branch, locator[j])
    requires forall i :: 0 <= i < j ==> !KnownEntry(index, branch, locator[i])
    ensures StartAfter(index, branch, locator) == index[locator[j]]
  {
    if j > 0 {
      StartAfterFirst(index, branch, locator[1..], j - 1);
    }
  }

  lemma {:induction false} StartAfterNone(index: map<Hash, BlockNode>, branch: seq<BlockNode>, locator: seq<Hash>)
    requires IsBranch(branch) && branch != []
    requires forall i :: 0 <= i < |locator| ==> !KnownEntry(index, branch, locator[i])
    ensures StartAfter(index, branch, locator) == branch[0]
  {
    if locator != [] {
      StartAfterNone(index, branch, locator[1..]);
    }
  }

  /** The node after the first known locator entry, and how many nodes from there
      to serve, given a stop hash and a limit. */
  method LocateInventory(index: map<Hash, BlockNode>, view: ChainView, locator: seq<Hash>, hashStop: Hash, maxEntries: nat)
    returns (start: Option<BlockNode>, total: nat)
    requires view.Valid()
    ensures locator == [] ==>
      if hashStop in index then start == Some(index[hashStop]) && total == 1 else start == None && total == 0
    ensures locator != [] && view.branch == [] ==> start == None && total == 0
    ensures locator != [] && view.branch != [] ==>
      var after := StartAfter(index, view.branch, locator);
      if after.Height() + 1 == |view.branch| then start == None && total == 0
      else
        && start == Some(view.branch[after.Height() + 1]) && start.value.Height() == after.Height() + 1
        && total == InventoryCount(index, view.branch, after.Height() + 1, hashStop, maxEntries)
        && ServesRange(index, view.branch, after.Height() + 1, hashStop, maxEntries, total)
  {
    hide StartAfter, KnownEntry;
    var stopNode := if hashStop in index then Some(index[hashStop]) else None;
    if |locator| == 0 {
      if stopNode.None? {
        return None, 0;
      }
      return stopNode, 1;
    }
    var startNode := FindStart(index, view, locator);
    start := view.Next(startNode);
    if start.None? {
      return None, 0;
    }
    total := view.Tip().value.Height() - start.value.Height() + 1;
    if stopNode.Some? && view.Contains(stopNode.value) && stopNode.value.Height() >= start.value.Height() {
      total := stopNode.value.Height() - start.value.Height() + 1;
    }
    if total > maxEntries {
      total := maxEntries;
    }
  }

  /** The first known main-chain entry of a locator, else genesis. */
  method FindStart(index: map<Hash, BlockNode>, view: ChainView, locator: seq<Hash>) returns (startNode: Option<BlockNode>)
    requires view.Valid()
    ensures startNode == if view.branch == [] then None else Some(StartAfter(index, view.branch, locator))
  {
    hide StartAfter;
    startNode := view.NodeByHeight(0);
    for i := 0 to |locator|
      invariant startNode == if view.branch == [] then None else Some(view.branch[0])
      invariant forall j :: 0 <= j < i ==> !KnownEntry(index, view.branch, locator[j])
    {
      if locator[i] in index && view.Contains(index[locator[i]]) {
        StartAfterFirst(index, view.branch, locator, i);
        return Some(index[locator[i]]);
      }
    }
    if view.branch != [] {
      StartAfterNone(index, view.branch, locator);
    }
  }

  /** The stop block is on the main chain, not before height `from`. */
  predicate StopsAhead(index: map<Hash, BlockNode>, branch: seq<BlockNode>, from: nat, hashStop: Hash) {
    hashStop in index && InView(branch, index[hashStop]) && index[hashStop].Height() >= from
  }

  /** A range of `n` blocks from height `from` on is what is asked for: it ends with the stop block
      if that lies ahead, else with the tip, unless the limit cuts it off before. */
  ghost predicate ServesRange(index: map<Hash, BlockNode>, branch: seq<BlockNode>, from: nat, hashStop: Hash, limit: nat, n: nat) {
    && n <= limit && from + n <= |branch|
    && (StopsAhead(index, branch, from, hashStop) ==> from + n - 1 <= index[hashStop].Height())
    && (n < limit ==>
          n >= 1 && if StopsAhead(index, branch, from, hashStop) then branch[from + n - 1] == index[hashStop] else from + n == |branch|)
  }

  /** How many blocks are served from height `from` on: up to the tip, or to a
      main-chain stop block not before `from`, and never more than the limit. */
  function InventoryCount(index: map<Hash, BlockNode>, branch: seq<BlockNode>, from: nat, hashStop: Hash, limit: nat): (n: nat)
    requires from < |branch|
    ensures ServesRange(index, branch, from, hashStop, limit, n)
  {
    var last := if StopsAhead(index, branch, from, hashStop) then index[hashStop].Height() else |branch| - 1;
    if last - from + 1 > limit then limit else last - from + 1
  }

  /** The hashes served are those of consecutive main-chain blocks; the walk never runs off the tip. */
  method LocateBlocks(index: map<Hash, BlockNode>, view: ChainView, locator: seq<Hash>, hashStop: Hash, maxHashes: nat)
    returns (hashes: seq<Hash>)
    requires view.Valid()
    ensures locator == [] ==> hashes == if hashStop in index then [index[hashStop].Hash()] else []
    ensures locator != [] && view.branch == [] ==> hashes == []
    ensures locator != [] && view.branch != [] ==>
      var from := StartAfter(index, view.branch, locator).Height() + 1;
      if from == |view.branch| then hashes == []
      else
        && |hashes| == InventoryCount(index, view.branch, from, hashStop, maxHashes)
        && ServesRange(index, view.branch, from, hashStop, maxHashes, |hashes|)
        && forall i :: 0 <= i < |hashes| ==> hashes[i] == view.branch[from + i].Hash()
  {
    var node, total := LocateInventory(index, view, locator, hashStop, maxHashes);
    hashes := [];
    if total == 0 {
      return;
    }
    ghost var from := node.value.Height();
    var i := 0;
    while i < total
      invariant 0 <= i == |hashes| <= total
      invariant locator == [] ==> total == 1 && (i == 0 ==> node == Some(index[hashStop]))
      invariant locator == [] && i == 1 ==> hashes == [index[hashStop].Hash()]
      invariant locator != [] && i < total ==> from + i < |view.branch| && node == Some(view.branch[from + i]) && node.value.Height() == from + i
      invariant locator != [] ==> forall k :: 0 <= k < i ==> hashes[k] == view.branch[from + k].Hash()
    {
      hashes := hashes + [node.value.Hash()];
      node := view.Next(node);
      i := i + 1;
    }
  }

  /** A locator entry of `n` is on the main chain exactly when it is not above the fork point. */
  lemma EntryKnown(index: map<Hash, BlockNode>, branch: seq<BlockNode>, n: BlockNode, locator: seq<Hash>, j: nat)
    requires IsBranch(branch) && Fork(branch, n).Some? && Indexed(index, n)
    requires IsLocatorOf(locator, n) && j < |locator|
    ensures index[locator[j]] == n.At(EntryHeight(n.Height(), j))
    ensures KnownEntry(index, branch, locator[j]) <==> EntryHeight(n.Height(), j) <= Fork(branch, n).value.Height()
  {
    var h := EntryHeight(n.Height(), j);
    var f := Fork(branch, n).value;
    if h <= f.Height() {
      BranchClosed(branch, f, h);
      AtAt(n, f.Height(), h);
    } else {
      AboveForkNotInView(branch, n, h);
    }
  }

  /** The first locator depth that reaches a fork `d` blocks deep overshoots it by less than a factor two. */
  lemma FirstDepth(d: nat, j: nat)
    requires EntryDepth(j) >= d && (j > 0 ==> EntryDepth(j - 1) < d)
    ensures d <= 11 ==> EntryDepth(j) == d
    ensures d > 11 ==> EntryDepth(j) < 2 * d
  {
    if j > 11 {
      assert Pow2(j - 10) == 2 * Pow2(j - 11);
      if j > 12 { Pow2Monotonic(1, j - 11); }
    }
  }

  /** Serving a locator of any known block starts right after the true fork point when
      the fork is at most 11 blocks below that block, and otherwise right after a common
      ancestor less than twice as deep. */
  lemma LocatorFindsFork(index: map<Hash, BlockNode>, branch: seq<BlockNode>, n: BlockNode, locator: seq<Hash>)
    requires IsBranch(branch) && branch != [] && branch[0] == n.At(0)
    requires Indexed(index, n) && IsLocatorOf(locator, n)
    ensures Fork(branch, n).Some?
    ensures
      var fork, start := Fork(branch, n).value, StartAfter(index, branch, locator);
      && start.IsAncestorOf(fork)
      && (n.Height() - fork.Height() <= 11 ==> start == fork)
      && (n.Height() - fork.Height() > 11 ==> n.Height() - start.Height() < 2 * (n.Height() - fork.Height()))
  {
    ForkExists(branch, n);
    var f, h := Fork(branch, n).value, n.Height();
    LocatorShape(h);
    EntryAboveGenesis(h, 0);
    var j := FirstAtMost(h, f.Height(), 0);
    forall i | 0 <= i <= j
      ensures KnownEntry(index, branch, locator[i]) <==> i == j
    {
      EntryKnown(index, branch, n, locator, i);
    }
    EntryKnown(index, branch, n, locator, j);
    StartAfterFirst(index, branch, locator, j);
    AtAt(n, f.Height(), EntryHeight(h, j));
    if j > 0 { assert EntryHeight(h, j - 1) > f.Height(); }
    FirstDepth(h - f.Height(), j);
  }

  /** The first entry at or below a height. */
  lemma FirstAtMost(h: nat, limit: nat, from: nat) returns (j: nat)
    requires from < MaxEntries(h) && EntryHeight(h, MaxEntries(h) - 1) == 0
    requires forall i :: 0 <= i < from ==> EntryHeight(h, i) > limit
    ensures j < MaxEntries(h) && EntryHeight(h, j) <= limit
    ensures forall i :: 0 <= i < j ==> EntryHeight(h, i) > limit
    decreases MaxEntries(h) - from
  {
    if EntryHeight(h, from) <= limit {
      j := from;
    } else {
      j := FirstAtMost(h, limit, from + 1);
    }
  }

  /** Hashes of the ancestors of a block at every positive multiple of the interval:
      the walk that switches to the view once it meets it equals plain ancestor lookup.
      A negative interval works for blocks below it and gives nothing. */
  method IntervalBlockHashes(index: map<Hash, BlockNode>, knownValid: set<BlockNode>, view: ChainView, endHash: Hash, interval: int)
    returns (r: Option<seq<Hash>>)
    requires view.Valid()
    requires endHash in index && index[endHash] in knownValid ==> interval > 0 || index[endHash].Height() < -interval
    ensures r.Some? <==> endHash in index && index[endHash] in knownValid
    ensures r.Some? ==> r.value == if interval > 0 then IntervalHashes(index[endHash], interval) else []
  {
    if endHash !in index || index[endHash] !in knownValid {
      return None;
    }
    var endNode := index[endHash];
    if interval < 0 {
      // The quotient is zero, so there is nothing to collect.
      return Some([]);
    }
    var node, k := endNode, endNode.Height() / interval;
    var hashes := [];
    while k > 0
      invariant 0 <= k <= endNode.Height() / interval
      invariant node == endNode || (k < endNode.Height() / interval && node == IntervalNode(endNode, interval, k + 1))
      invariant hashes == IntervalHashes(endNode, interval)[k..]
    {
      IntervalWalk(endNode, node, interval, k);
      node := AncestorInView(view, node, k * interval);
      hashes := [node.Hash()] + hashes;
      k := k - 1;
    }
    return Some(hashes);
  }

  /** Going from one interval ancestor to the next one below it. */
  lemma IntervalWalk(end: BlockNode, node: BlockNode, interval: nat, k: nat)
    requires interval > 0 && 1 <= k <= end.Height() / interval
    requires node == end || (k < end.Height() / interval && node == IntervalNode(end, interval, k + 1))
    ensures k * interval <= node.Height() && node.At(k * interval) == IntervalNode(end, interval, k)
  {
    IntervalFits(end.Height(), interval, k);
    if node != end {
      IntervalFits(end.Height(), interval, k + 1);
      assert (k + 1) * interval == k * interval + interval;
      AtAt(end, (k + 1) * interval, k * interval);
    }
  }

  lemma IntervalFits(h: nat, interval: nat, k: nat)
    requires interval > 0 && k <= h / interval
    ensures k * interval <= h
  {
    assert h == (h / interval) * interval + h % interval;
    assert (h / interval - k) * interval >= 0;
    assert (h / interval) * interval - k * interval == (h / interval - k) * interval;
  }

  /** The ancestor of a block at its `i`-th interval height, counting from one. */
  ghost function IntervalNode(node: BlockNode, interval: nat, i: nat): (n: BlockNode)
    requires interval > 0 && 1 <= i <= node.Height() / interval
  {
    IntervalFits(node.Height(), interval, i);
    node.At(i * interval)
  }

  ghost function IntervalHashes(node: BlockNode, interval: nat): (s: seq<Hash>)
    requires interval > 0
    ensures |s| == node.Height() / interval
  {
    seq(node.Height() / interval, i requires 0 <= i < node.Height() / interval => IntervalNode(node, interval, i + 1).Hash())
  }
}
