/**
 The tree of block nodes of blockchain/blockindex.go.

 A node never changes its header fields or its parent after creation, so it is
 a value that holds its parent; the one field the source writes later, the
 status, lives in the block index (see ChainState and BlockChain). The cached
 height and work sum of the source are functions of the parent path here.
 */
module BlockTree {
  import opened Common

  /** A block: what its header says, with the hash of that header, plus the
      number of transactions its Merkle root commits to. */
  datatype Block = Block(hash: Hash, prevBlock: Hash, work: nat, timestamp: int, txns: nat)

  datatype BlockNode =
    | Genesis(block: Block)
    | Child(block: Block, parent: BlockNode)
  {
    function Hash(): Hash { block.hash }

    function Height(): nat {
      if Genesis? then 0 else parent.Height() + 1
    }

    function WorkSum(): nat {
      if Genesis? then block.work else parent.WorkSum() + block.work
    }

    function TotalTxns(): nat {
      if Genesis? then block.txns else parent.TotalTxns() + block.txns
    }

    /** The nodes from the root of the tree to this node. */
    function Path(): (p: seq<BlockNode>)
      ensures |p| == Height() + 1 && p[Height()] == this
    {
      if Genesis? then [this] else parent.Path() + [this]
    }

    /** The ancestor (or the node itself) at height `h`. */
    function At(h: nat): (a: BlockNode)
      requires h <= Height()
      ensures a.Height() == h
    {
      if h == Height() then this else parent.At(h)
    }

    /** This node is `n` or one of its ancestors. */
    predicate IsAncestorOf(n: BlockNode) {
      Height() <= n.Height() && n.At(Height()) == this
    }
  }

  /** Entry `h` of the path is the ancestor at height `h`. */
  lemma {:induction false} PathAt(n: BlockNode, h: nat)
    requires h <= n.Height()
    ensures n.Path()[h] == n.At(h)
  {
    if h < n.Height() {
      PathAt(n.parent, h);
    }
  }

  lemma PathAtAll(n: BlockNode)
    ensures forall h: nat :: h <= n.Height() ==> n.Path()[h] == n.At(h)
  {
    forall h: nat | h <= n.Height()
      ensures n.Path()[h] == n.At(h)
    {
      PathAt(n, h);
    }
  }

  /** Neighbouring path entries are parent and child, and sit at their own heights. */
  lemma {:induction false} PathStep(n: BlockNode, i: nat)
    requires i <= n.Height()
    ensures n.Path()[i].Height() == i
    ensures if i == 0 then n.Path()[i].Genesis? else n.Path()[i].Child? && n.Path()[i].parent == n.Path()[i - 1]
  {
    if i < n.Height() {
      PathStep(n.parent, i);
    }
  }

  lemma {:induction false} AtAt(n: BlockNode, h: nat, k: nat)
    requires k <= h <= n.Height()
    ensures n.At(h).At(k) == n.At(k)
  {
    if h < n.Height() {
      AtAt(n.parent, h, k);
    }
  }

  lemma {:induction false} AtParent(n: BlockNode, h: nat)
    requires 0 < h <= n.Height()
    ensures n.At(h).Child? && n.At(h).parent == n.At(h - 1)
  {
    if h < n.Height() {
      AtParent(n.parent, h);
    }
  }

  /** The path of an ancestor is a prefix of the path. */
  lemma {:induction false} PathOfAncestor(n: BlockNode, h: nat)
    requires h <= n.Height()
    ensures n.At(h).Path() == n.Path()[..h + 1]
  {
    if h < n.Height() {
      PathOfAncestor(n.parent, h);
      assert n.Path()[..h + 1] == n.parent.Path()[..h + 1];
    }
  }

  /** Work never decreases towards the leaves. */
  lemma {:induction false} WorkMonotonic(a: BlockNode, n: BlockNode)
    requires a.IsAncestorOf(n)
    ensures a.WorkSum() <= n.WorkSum()
  {
    if a.Height() < n.Height() {
      WorkMonotonic(a, n.parent);
    }
  }

  /** Looks up an ancestor by walking the parents; out-of-range heights give nothing. */
  method Ancestor(node: BlockNode, height: int) returns (r: Option<BlockNode>)
    ensures r == if 0 <= height <= node.Height() then Some(node.At(height)) else None
  {
    if height < 0 || height > node.Height() {
      return None;
    }
    var n := node;
    while n.Height() != height
      invariant height <= n.Height() <= node.Height()
      invariant n.At(height) == node.At(height)
      decreases n.Height()
    {
      n := n.parent;
    }
    return Some(n);
  }

  /** A flat view of one branch: empty, or the path of its last node. */
  predicate IsBranch(view: seq<BlockNode>) {
    view == [] || view == view[|view| - 1].Path()
  }

  /** A node is in a view when the view holds it at its height. */
  predicate InView(view: seq<BlockNode>, n: BlockNode) {
    n.Height() < |view| && view[n.Height()] == n
  }

  /** The last node of `n`'s path, walking towards the root, that is in the view. */
  function Fork(view: seq<BlockNode>, n: BlockNode): (f: Option<BlockNode>)
    ensures f.Some? ==> InView(view, f.value) && f.value.IsAncestorOf(n)
  {
    if InView(view, n) then Some(n)
    else if n.Genesis? then None
    else Fork(view, n.parent)
  }

  /** A branch contains exactly the ancestors of its last node. */
  lemma InBranch(view: seq<BlockNode>, n: BlockNode)
    requires IsBranch(view) && view != []
    ensures InView(view, n) <==> n.IsAncestorOf(view[|view| - 1])
  {
    PathAtAll(view[|view| - 1]);
  }

  /** Ancestors of a node in a branch are in the branch. */
  lemma BranchClosed(view: seq<BlockNode>, n: BlockNode, h: nat)
    requires IsBranch(view) && InView(view, n) && h <= n.Height()
    ensures view[h] == n.At(h) && InView(view, n.At(h))
  {
    PathAtAll(view[|view| - 1]);
    AtAt(view[|view| - 1], n.Height(), h);
  }

  /** The fork point is the highest common ancestor of the node and the branch. */
  lemma {:induction false} ForkIsHighestCommon(view: seq<BlockNode>, n: BlockNode, c: BlockNode)
    requires IsBranch(view)
    requires c.IsAncestorOf(n) && InView(view, c)
    ensures Fork(view, n).Some?
    ensures c.IsAncestorOf(Fork(view, n).value)
  {
    if !InView(view, n) {
      assert c.IsAncestorOf(n.parent);
      ForkIsHighestCommon(view, n.parent, c);
    }
  }

  /** Two nodes with the same root have a fork point. */
  lemma ForkExists(view: seq<BlockNode>, n: BlockNode)
    requires IsBranch(view) && view != []
    requires view[0] == n.At(0)
    ensures Fork(view, n).Some?
  {
    ForkIsHighestCommon(view, n, n.At(0));
  }

  /** Above the fork point, the node's path has left the branch. */
  lemma {:induction false} AboveForkNotInView(view: seq<BlockNode>, n: BlockNode, h: nat)
    requires IsBranch(view) && Fork(view, n).Some?
    requires Fork(view, n).value.Height() < h <= n.Height()
    ensures !InView(view, n.At(h))
  {
    if InView(view, n.At(h)) {
      AtAt(n, h, h);
      ForkIsHighestCommon(view, n, n.At(h));
      assert false;
    }
  }
}
