/**
 The flat view of the best branch, blockchain/chainview.go.

 The slice of the source is a backing array together with a length: shrinking
 keeps stale entries in the backing array, and growing again clears them.
 */
module ChainViews {
  import opened Common
  import opened BlockTree

  /** Extra capacity given to a reallocated backing array. */
  const APPROX_NODES_PER_WEEK := 6 * 24 * 7

  class ChainView {
    var nodes: array<Option<BlockNode>>
    var len: nat
    /** The branch the view stands for. */
    ghost var branch: seq<BlockNode>

    ghost predicate Valid()
      reads this, nodes
    {
      && len <= nodes.Length
      && |branch| == len
      && IsBranch(branch)
      && forall i :: 0 <= i < len ==> nodes[i] == Some(branch[i])
    }

    constructor ()
      ensures Valid() && fresh(nodes) && branch == []
    {
      nodes := new Option<BlockNode>[0];
      len := 0;
      branch := [];
    }

    /** Whatever the view held before, afterwards it is the whole path of the
        new tip, although only entries that differ are written. */
    method SetTip(tip: Option<BlockNode>)
      requires Valid()
      modifies this, nodes
      ensures Valid() && (nodes == old(nodes) || fresh(nodes))
      ensures branch == if tip.None? then [] else tip.value.Path()
    {
      if tip.None? {
        len, branch := 0, [];
        return;
      }
      ghost var prev := branch;
      Resize(tip.value.Height() + 1);
      Repair(tip.value, prev);
      branch := tip.value.Path();
    }

    /** Writes the path of the tip from the top down until an entry already agrees. */
    method Repair(tip: BlockNode, ghost prev: seq<BlockNode>)
      requires IsBranch(prev) && len == tip.Height() + 1 <= nodes.Length
      requires forall i :: 0 <= i < len ==> nodes[i] == if i < |prev| then Some(prev[i]) else None
      modifies nodes
      ensures forall i :: 0 <= i < len ==> nodes[i] == Some(tip.Path()[i])
    {
      hide BlockNode.Path, BlockNode.At;
      var node := Some(tip);
      ghost var path, k := tip.Path(), len;
      while node.Some? && nodes[node.value.Height()] != node
        invariant 0 <= k <= len && node == if k == 0 then None else Some(path[k - 1])
        invariant node.Some? ==> node.value.Height() == k - 1
        invariant forall i :: k <= i < len ==> nodes[i] == Some(path[i])
        invariant forall i :: 0 <= i < k ==> nodes[i] == if i < |prev| then Some(prev[i]) else None
        decreases k
      {
        PathStep(tip, k - 1);
        nodes[node.value.Height()] := node;
        node := if node.value.Genesis? then None else Some(node.value.parent);
        k := k - 1;
      }
      if node.Some? {
        PathAt(tip, k - 1);
        PathOfAncestor(tip, k - 1);
        BranchClosedAll(prev, node.value);
      }
    }

    /** Gives the slice `needed` entries: a new array with spare room, or the old
        one with the entries past the old length cleared. */
    method Resize(needed: nat)
      requires Valid()
      modifies this, nodes
      ensures (nodes == old(nodes) || fresh(nodes)) && len == needed <= nodes.Length
      ensures branch == old(branch)
      ensures forall i :: 0 <= i < needed ==> nodes[i] == if i < |branch| then Some(branch[i]) else None
    {
      hide BlockNode.Path, IsBranch;
      if nodes.Length < needed {
        var grown := new Option<BlockNode>[needed + APPROX_NODES_PER_WEEK](_ => None);
        var i := 0;
        while i < len
          invariant 0 <= i <= len <= nodes.Length < needed
          invariant Valid() && fresh(grown) && branch == old(branch)
          invariant forall j :: 0 <= j < grown.Length ==> grown[j] == if j < i then Some(branch[j]) else None
          modifies grown
        {
          grown[i] := nodes[i];
          i := i + 1;
        }
        nodes := grown;
      } else {
        var i := len;
        while i < needed
          invariant len <= i && (i <= needed || i == len)
          invariant Valid() && branch == old(branch) && nodes == old(nodes)
          invariant forall j :: len <= j < i ==> nodes[j] == None
          modifies nodes
        {
          nodes[i] := None;
          i := i + 1;
        }
      }
      len := needed;
    }

    /** The current tip, or nothing for an empty view. */
    function Tip(): (r: Option<BlockNode>)
      requires Valid()
      reads this, nodes
      ensures r == if branch == [] then None else Some(branch[|branch| - 1])
    {
      if len == 0 then None else nodes[len - 1]
    }

    function NodeByHeight(height: int): (r: Option<BlockNode>)
      requires Valid()
      reads this, nodes
      ensures r == if 0 <= height < |branch| then Some(branch[height]) else None
    {
      if height < 0 || height >= len then None else nodes[height]
    }

    predicate Contains(node: BlockNode)
      requires Valid()
      reads this, nodes
      ensures Contains(node) <==> InView(branch, node)
    {
      NodeByHeight(node.Height()) == Some(node)
    }

    /** The successor in the branch of a node of the branch. */
    function Next(node: Option<BlockNode>): (r: Option<BlockNode>)
      requires Valid()
      reads this, nodes
      ensures r.Some? <==> node.Some? && InView(branch, node.value) && node.value.Height() + 1 < |branch|
      ensures r.Some? ==> r.value == branch[node.value.Height() + 1]
      ensures r.Some? ==> InView(branch, r.value) && r.value.Child? && r.value.parent == node.value
    {
      if node.None? || !Contains(node.value) then None
      else
        var r := NodeByHeight(node.value.Height() + 1);
        NextIsChild(branch, node.value);
        r
    }

    /** The last common node of a branch and this view. */
    method FindFork(node: Option<BlockNode>) returns (r: Option<BlockNode>)
      requires Valid()
      ensures r == if node.None? then None else Fork(branch, node.value)
    {
      if node.None? {
        return None;
      }
      var n := node;
      if node.value.Height() as int > len - 1 {
        n := Ancestor(node.value, len - 1);
        ForkBelow(branch, node.value);
      }
      while n.Some? && !Contains(n.value)
        invariant (if n.None? then None else Fork(branch, n.value)) == Fork(branch, node.value)
        decreases if n.None? then 0 else n.value.Height() + 1
      {
        n := if n.value.Genesis? then None else Some(n.value.parent);
      }
      return n;
    }
  }

  /** A branch agrees with every node it contains, all the way down. */
  lemma BranchClosedAll(view: seq<BlockNode>, n: BlockNode)
    requires IsBranch(view) && InView(view, n)
    ensures n.Path() == view[..n.Height() + 1]
  {
    var tip := view[|view| - 1];
    PathAtAll(tip);
    PathOfAncestor(tip, n.Height());
  }

  lemma NextIsChild(view: seq<BlockNode>, n: BlockNode)
    requires IsBranch(view) && InView(view, n)
    ensures n.Height() + 1 < |view| ==>
      var m := view[n.Height() + 1]; m.Child? && m.parent == n && InView(view, m)
  {
    if n.Height() + 1 < |view| {
      var tip := view[|view| - 1];
      PathAtAll(tip);
      var m := view[n.Height() + 1];
      AtAt(tip, n.Height() + 1, n.Height());
    }
  }

  /** The fork point is never above the end of the view, so the walk may start there. */
  lemma {:induction false} ForkBelow(view: seq<BlockNode>, n: BlockNode)
    requires n.Height() >= |view|
    ensures Fork(view, n) == if view == [] then None else Fork(view, n.At(|view| - 1))
  {
    if n.Child? && n.Height() > |view| {
      ForkBelow(view, n.parent);
    }
  }
}
