/** What every step of the best-chain state machine keeps. */
module ChainInvariants {
  import opened Common
  import opened BlockTree
  import opened MedianTime
  import opened ChainState

  /** The index and the set of known nodes are one tree: nodes are found under their own
      hashes, parents are known and linked by hash, and there is one root. */
  ghost predicate TreeOk(index: map<Hash, BlockNode>, nodes: set<BlockNode>, root: BlockNode) {
    && (forall h :: h in index ==> index[h].Hash() == h && index[h] in nodes)
    && (forall n :: n in nodes ==> n.Hash() in index && index[n.Hash()] == n)
    && (forall n {:trigger ParentIn(nodes, n)} :: n in nodes ==> ParentIn(nodes, n))
    && (forall n :: n in nodes && n.Genesis? ==> n == root)
  }

  /** The parent of a node, if any, is known and named by the node's header. */
  ghost predicate ParentIn(nodes: set<BlockNode>, n: BlockNode) {
    n.Child? ==> n.parent in nodes && n.block.prevBlock == n.parent.Hash()
  }

  /** The main-chain buckets that belong to a tip. */
  function HashIndexOf(t: BlockNode): map<Hash, nat> {
    if t.Genesis? then map[t.Hash() := 0] else HashIndexOf(t.parent)[t.Hash() := t.Height()]
  }

  function HeightIndexOf(t: BlockNode): map<nat, Hash> {
    if t.Genesis? then map[0 := t.Hash()] else HeightIndexOf(t.parent)[t.Height() := t.Hash()]
  }

  function JournalOf(t: BlockNode): set<Hash> {
    if t.Genesis? then {} else JournalOf(t.parent) + {t.Hash()}
  }

  function SnapshotOf(t: BlockNode): BestState {
    BestState(t.Hash(), t.Height(), t.block.txns, t.TotalTxns(), PastMedian(t))
  }

  /** The view, the snapshot and the main-chain buckets all describe the same tip. */
  ghost predicate ViewOk(s: Chain) {
    && s.view != []
    && var t := s.Tip();
    && t in s.status
    && s.view == t.Path()
    && s.snapshot == SnapshotOf(t)
    && s.db.hashIndex == HashIndexOf(t)
    && s.db.heightIndex == HeightIndexOf(t)
    && s.db.spendJournal == JournalOf(t)
    && s.db.best.hash == t.Hash() && s.db.best.height == t.Height() && s.db.best.totalTxns == t.TotalTxns()
  }

  /** Rows of nodes that are not dirty are up to date. */
  ghost predicate RowsOk(s: Chain) {
    && s.dirty <= s.status.Keys
    && s.db.rows.Keys <= s.status.Keys
    && forall n :: n in s.status && n !in s.dirty ==> n in s.db.rows && s.db.rows[n] == s.status[n]
  }

  /** The structural invariant: view, buckets, tree and rows. */
  ghost predicate Structure(s: Chain)
    ensures Structure(s) ==> s.view != [] && s.Tip() in s.status && s.view == s.Tip().Path()
  {
    ViewOk(s) && TreeOk(s.index, s.status.Keys, s.view[0]) && RowsOk(s)
  }

  /** What any observer sees at a point where the chain lock is released. */
  ghost predicate Consistent(s: Chain)
    ensures Consistent(s) ==> Structure(s)
  {
    Structure(s) && s.dirty == {} && s.db.rows == s.status
  }

  lemma FlushWritesAll(s: Chain)
    requires RowsOk(s)
    ensures s.Flush().db.rows == s.status
  {
  }

  lemma FlushStructure(s: Chain)
    requires Structure(s)
    ensures Consistent(s.Flush())
  {
    FlushWritesAll(s);
  }

  /** Known nodes are closed under taking ancestors, and share the root. */
  lemma {:induction false} AncestorsKnown(index: map<Hash, BlockNode>, nodes: set<BlockNode>, root: BlockNode, n: BlockNode, h: nat)
    requires TreeOk(index, nodes, root) && n in nodes && h <= n.Height()
    ensures n.At(h) in nodes && n.At(0) == root
  {
    if n.Child? {
      assert ParentIn(nodes, n);
      AncestorsKnown(index, nodes, root, n.parent, if h < n.Height() then h else 0);
    }
  }

  lemma {:induction false} HashIndexKeys(t: BlockNode, h: Hash)
    requires h in HashIndexOf(t)
    ensures HashIndexOf(t)[h] <= t.Height() && t.At(HashIndexOf(t)[h]).Hash() == h
  {
    if t.Child? && h != t.Hash() {
      HashIndexKeys(t.parent, h);
    }
  }

  lemma {:induction false} HeightIndexKeys(t: BlockNode, k: nat)
    ensures k in HeightIndexOf(t) <==> k <= t.Height()
    ensures k <= t.Height() ==> HeightIndexOf(t)[k] == t.At(k).Hash()
  {
    if t.Child? {
      HeightIndexKeys(t.parent, k);
    }
  }

  /** The block of the path at a height above genesis has the given hash. */
  ghost predicate NamedAt(t: BlockNode, k: nat, h: Hash) {
    0 < k <= t.Height() && t.At(k).Hash() == h
  }

  lemma {:induction false} JournalKeys(t: BlockNode, h: Hash)
    ensures h in JournalOf(t) <==> exists k: nat :: NamedAt(t, k, h)
  {
    if t.Child? {
      JournalKeys(t.parent, h);
      if h in JournalOf(t.parent) {
        var k: nat :| NamedAt(t.parent, k, h);
        assert NamedAt(t, k, h);
      }
      assert NamedAt(t, t.Height(), t.Hash());
      forall k: nat | NamedAt(t, k, h)
        ensures h in JournalOf(t)
      {
        assert k < t.Height() ==> NamedAt(t.parent, k, h);
      }
    }
  }

  /** No two known nodes share a hash, so a node's hash is not in its parent's buckets. */
  lemma FreshHash(index: map<Hash, BlockNode>, nodes: set<BlockNode>, root: BlockNode, n: BlockNode)
    requires TreeOk(index, nodes, root) && n in nodes && n.Child?
    ensures n.Hash() !in HashIndexOf(n.parent)
    ensures n.Hash() !in JournalOf(n.parent)
    ensures n.Height() !in HeightIndexOf(n.parent)
  {
    assert ParentIn(nodes, n);
    HeightIndexKeys(n.parent, n.Height());
    JournalKeys(n.parent, n.Hash());
    if n.Hash() in HashIndexOf(n.parent) {
      HashIndexKeys(n.parent, n.Hash());
      AncestorsKnown(index, nodes, root, n.parent, HashIndexOf(n.parent)[n.Hash()]);
      assert false;
    }
    if n.Hash() in JournalOf(n.parent) {
      var k: nat :| NamedAt(n.parent, k, n.Hash());
      AncestorsKnown(index, nodes, root, n.parent, k);
      assert false;
    }
  }

  /** Read through the view: the two indexes are mutual inverses that list exactly the
      main chain, and the journal covers exactly its blocks other than genesis. */
  lemma BucketsMatchView(s: Chain, h: Hash, k: nat)
    requires Structure(s)
    ensures (h in s.db.hashIndex && s.db.hashIndex[h] == k) <==> (k in s.db.heightIndex && s.db.heightIndex[k] == h)
    ensures k in s.db.heightIndex <==> k < |s.view|
    ensures k < |s.view| ==> s.db.heightIndex[k] == s.view[k].Hash()
    ensures h in s.db.spendJournal <==> exists i :: 0 < i < |s.view| && s.view[i].Hash() == h
    ensures s.snapshot.totalTxns == SumTxns(s.view)
  {
    var t := s.Tip();
    PathAtAll(t);
    HeightIndexKeys(t, k);
    JournalKeys(t, h);
    TotalIsSum(t);
    assert h in s.db.spendJournal ==> exists i :: 0 < i < |s.view| && s.view[i].Hash() == h by {
      if h in s.db.spendJournal {
        var j: nat :| NamedAt(t, j, h);
        assert s.view[j].Hash() == h;
      }
    }
    if i: nat :| 0 < i < |s.view| && s.view[i].Hash() == h {
      assert NamedAt(t, i, h);
    }
    if h in s.db.hashIndex {
      HashIndexKeys(t, h);
      AncestorsKnown(s.index, s.status.Keys, s.view[0], t, s.db.hashIndex[h]);
    }
    if k <= t.Height() {
      AncestorsKnown(s.index, s.status.Keys, s.view[0], t, k);
      AncestorInHashIndex(t, k);
      HashIndexKeys(t, t.At(k).Hash());
      AncestorsKnown(s.index, s.status.Keys, s.view[0], t, HashIndexOf(t)[t.At(k).Hash()]);
    }
  }

  lemma {:induction false} AncestorInHashIndex(t: BlockNode, k: nat)
    requires k <= t.Height()
    ensures t.At(k).Hash() in HashIndexOf(t)
  {
    if k < t.Height() {
      AncestorInHashIndex(t.parent, k);
    }
  }

  function SumTxns(view: seq<BlockNode>): nat {
    if view == [] then 0 else SumTxns(view[..|view| - 1]) + view[|view| - 1].block.txns
  }

  lemma {:induction false} TotalIsSum(t: BlockNode)
    ensures t.TotalTxns() == SumTxns(t.Path())
  {
    if t.Child? {
      TotalIsSum(t.parent);
      assert t.Path()[..|t.Path()| - 1] == t.parent.Path();
    } else {
      assert t.Path()[..0] == [];
    }
  }

  lemma PathRoot(n: BlockNode)
    requires n.Child?
    ensures n.Path()[0] == n.parent.Path()[0]
  {
  }

  /** A node linked by hash to the tip is a child of the tip. */
  lemma ExtendsTip(s: Chain, n: BlockNode)
    requires Structure(s) && n in s.status && n.Child?
    ensures n.block.prevBlock == s.Tip().Hash() <==> n.parent == s.Tip()
  {
    assert ParentIn(s.status.Keys, n);
  }

  lemma ConnectedView(s: Chain, n: BlockNode)
    requires ViewOk(s) && n in s.status && n.Child? && n.parent == s.Tip() && n.block.prevBlock == s.Tip().Hash()
    ensures ViewOk(ConnectBlock(s, n).chain) && ConnectBlock(s, n).chain.Tip() == n
  {
    hide PastMedian;
    var c := ConnectBlock(s, n).chain;
    assert c.view[|c.view| - 1] == n;
  }

  lemma DisconnectedView(s: Chain, n: BlockNode)
    requires ViewOk(s) && n == s.Tip() && n.Child? && n.parent in s.status
    requires HashIndexOf(n) - {n.Hash()} == HashIndexOf(n.parent)
    requires HeightIndexOf(n) - {n.Height()} == HeightIndexOf(n.parent)
    requires JournalOf(n) - {n.Hash()} == JournalOf(n.parent)
    ensures ViewOk(DisconnectBlock(s, n).chain) && DisconnectBlock(s, n).chain.Tip() == n.parent
  {
    hide PastMedian, HashIndexOf, HeightIndexOf, JournalOf;
    var d := DisconnectBlock(s, n).chain;
    assert d.view[|d.view| - 1] == n.parent;
  }

  /** Connecting a child of the tip succeeds and publishes a consistent state. */
  lemma ConnectKeeps(s: Chain, n: BlockNode)
    requires Structure(s) && n in s.status && n.Child? && n.parent == s.Tip()
    ensures
      var c := ConnectBlock(s, n);
      && c.err == NoError && c.published == [c.chain]
      && Consistent(c.chain) && c.chain.Tip() == n
      && c.chain.status == s.status && c.chain.index == s.index
  {
    hide TreeOk, ViewOk, PastMedian;
    ExtendsTip(s, n);
    FlushWritesAll(s);
    PathRoot(n);
    ConnectedView(s, n);
  }

  /** Disconnecting the tip succeeds and publishes a consistent state. */
  lemma DisconnectKeeps(s: Chain, n: BlockNode)
    requires Structure(s) && n == s.Tip() && n.Child?
    ensures
      var d := DisconnectBlock(s, n);
      && d.err == NoError && d.published == [d.chain]
      && Consistent(d.chain) && d.chain.Tip() == n.parent
      && d.chain.status == s.status && d.chain.index == s.index
  {
    hide TreeOk, ViewOk, PastMedian;
    FlushWritesAll(s);
    PathRoot(n);
    ParentKnown(s, n);
    BucketsShrink(s.index, s.status.Keys, s.view[0], n);
    DisconnectedView(s, n);
  }

  lemma LookupKnown(s: Chain, h: Hash)
    requires Structure(s) && h in s.index
    ensures s.index[h] in s.status && s.index[h].Hash() == h
  {
  }

  lemma ParentKnown(s: Chain, n: BlockNode)
    requires Structure(s) && n in s.status && n.Child?
    ensures n.parent in s.status
  {
    assert ParentIn(s.status.Keys, n);
  }

  lemma BucketsShrink(index: map<Hash, BlockNode>, nodes: set<BlockNode>, root: BlockNode, n: BlockNode)
    requires TreeOk(index, nodes, root) && n in nodes && n.Child?
    ensures HashIndexOf(n) - {n.Hash()} == HashIndexOf(n.parent)
    ensures HeightIndexOf(n) - {n.Height()} == HeightIndexOf(n.parent)
    ensures JournalOf(n) - {n.Hash()} == JournalOf(n.parent)
  {
    FreshHash(index, nodes, root, n);
    MapUndo(HashIndexOf(n.parent), n.Hash(), n.Height());
    MapUndo(HeightIndexOf(n.parent), n.Height(), n.Hash());
  }

  lemma MapUndo<K, V>(m: map<K, V>, k: K, v: V)
    requires k !in m
    ensures m[k := v] - {k} == m
  {
  }

  /** A chain of nodes, each the parent of the next, starting at a child of `p`. */
  ghost predicate Linked(p: BlockNode, nodes: seq<BlockNode>) {
    forall i :: 0 <= i < |nodes| ==> LinkAt(p, nodes, i)
  }

  ghost predicate LinkAt(p: BlockNode, nodes: seq<BlockNode>, i: nat)
    requires i < |nodes|
  {
    nodes[i].Child? && nodes[i].parent == if i == 0 then p else nodes[i - 1]
  }

  lemma LinkedTail(p: BlockNode, nodes: seq<BlockNode>)
    requires Linked(p, nodes) && nodes != []
    ensures nodes[0].Child? && nodes[0].parent == p
    ensures Linked(nodes[0], nodes[1..])
  {
    assert LinkAt(p, nodes, 0);
    forall i | 0 <= i < |nodes| - 1 ensures LinkAt(nodes[0], nodes[1..], i) {
      assert LinkAt(p, nodes, i + 1);
    }
  }

  ghost predicate AllConsistent(states: seq<Chain>) {
    forall s :: s in states ==> Consistent(s)
  }

  lemma AllConsistentPrepend(s: Chain, states: seq<Chain>)
    requires Consistent(s) && AllConsistent(states)
    ensures AllConsistent([s] + states)
  {
  }

  lemma {:induction false} DetachKeeps(s: Chain, k: nat)
    requires Structure(s) && k <= s.Tip().Height()
    requires AllChildren(DownTo(s.Tip(), k))
    ensures
      var d := DetachAll(s, DownTo(s.Tip(), k));
      && d.err == NoError && AllConsistent(d.published)
      && Structure(d.chain) && d.chain.Tip() == s.Tip().At(k)
      && d.chain.status == s.status && d.chain.index == s.index
      && (k < s.Tip().Height() ==> Consistent(d.chain))
    decreases s.Tip().Height()
  {
    hide TreeOk, RowsOk, DisconnectBlock;
    var t := s.Tip();
    if k < t.Height() {
      DisconnectKeeps(s, t);
      var d := DisconnectBlock(s, t);
      assert DownTo(t, k)[1..] == DownTo(t.parent, k);
      DetachKeeps(d.chain, k);
      AllConsistentPrepend(d.chain, DetachAll(d.chain, DownTo(t.parent, k)).published);
    }
  }

  lemma {:induction false} AttachKeeps(s: Chain, attach: seq<BlockNode>)
    requires Structure(s) && Linked(s.Tip(), attach)
    requires forall m :: m in attach ==> m in s.status
    ensures
      var a := AttachAll(s, attach);
      && a.err == NoError && AllConsistent(a.published)
      && Structure(a.chain) && a.chain.Tip() == (if attach == [] then s.Tip() else attach[|attach| - 1])
      && a.chain.status == s.status && a.chain.index == s.index
      && (attach != [] ==> Consistent(a.chain))
    decreases |attach|
  {
    hide TreeOk, RowsOk, ConnectBlock;
    if attach != [] {
      LinkedTail(s.Tip(), attach);
      ConnectKeeps(s, attach[0]);
      var c := ConnectBlock(s, attach[0]).chain;
      assert forall m :: m in attach[1..] ==> m in c.status;
      AttachKeeps(c, attach[1..]);
      AllConsistentPrepend(c, AttachAll(c, attach[1..]).published);
    }
  }
}
