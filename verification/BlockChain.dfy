/**
 The block index and the block chain as the source keeps them: objects updated in
 place. Every method is proved to compute the corresponding function of ChainState.
 */
module BlockChains {
  import opened Common
  import opened BlockTree
  import opened ChainViews
  import opened MedianTime
  import opened ChainState
  import opened ChainReorg
  import ChainRuns
  import ChainOutcomes

  /** `r`, with a log of earlier publications before it, is what is left to do from `rest`. */
  ghost predicate Continues(r: Step, log: seq<Chain>, rest: Step, logNow: seq<Chain>) {
    r.chain == rest.chain && r.err == rest.err && log + r.published == logNow + rest.published
  }

  /** The first step `d` of `whole` is done; `rest` follows it unless it failed. */
  lemma ContinuesAfter(r: Step, log: seq<Chain>, whole: Step, logNow: seq<Chain>, d: Step, rest: Step)
    requires Continues(r, log, whole, logNow)
    requires whole == if d.err == NoError then rest.(published := d.published + rest.published) else d
    ensures if d.err == NoError then Continues(r, log, rest, logNow + d.published) else Continues(r, log, d, logNow)
  {
    assert logNow + (d.published + rest.published) == logNow + d.published + rest.published;
  }

  lemma DetachOne(s: Chain, nodes: seq<BlockNode>, r: Step, log: seq<Chain>, logNow: seq<Chain>)
    requires s.view != [] && nodes != [] && AllChildren(nodes)
    requires Continues(r, log, DetachAll(s, nodes), logNow)
    ensures
      var d := DisconnectBlock(s, nodes[0]);
      if d.err == NoError then Continues(r, log, DetachAll(d.chain, nodes[1..]), logNow + d.published)
      else Continues(r, log, d, logNow)
  {
    var d := DisconnectBlock(s, nodes[0]);
    if d.err == NoError {
      var rest := DetachAll(d.chain, nodes[1..]);
      ContinuesAfter(r, log, DetachAll(s, nodes), logNow, d, rest);
    }
  }

  lemma NothingLeft(s: Chain)
    requires s.view != []
    ensures DetachAll(s, []) == AttachAll(s, []) == Step(s, NoError, [])
  {
  }

  lemma AttachOne(s: Chain, nodes: seq<BlockNode>, r: Step, log: seq<Chain>, logNow: seq<Chain>)
    requires s.view != [] && nodes != []
    requires Continues(r, log, AttachAll(s, nodes), logNow)
    ensures
      var c := ConnectBlock(s, nodes[0]);
      if c.err == NoError then Continues(r, log, AttachAll(c.chain, nodes[1..]), logNow + c.published)
      else Continues(r, log, c, logNow)
  {
    var c := ConnectBlock(s, nodes[0]);
    if c.err == NoError {
      var rest := AttachAll(c.chain, nodes[1..]);
      ContinuesAfter(r, log, AttachAll(s, nodes), logNow, c, rest);
    }
  }

  /** blockchain/blockindex.go: the in-memory index, and the bucket it is flushed to. */
  class BlockIndex {
    var index: map<Hash, BlockNode>
    var status: map<BlockNode, Status>
    var dirty: set<BlockNode>
    var rows: map<BlockNode, Status>

    constructor (genesis: BlockNode, st: Status)
      ensures index == map[genesis.Hash() := genesis] && status == map[genesis := st] && dirty == {} && rows == map[genesis := st]
    {
      index := map[genesis.Hash() := genesis];
      status := map[genesis := st];
      dirty := {};
      rows := map[genesis := st];
    }

    function NodeStatus(node: BlockNode): Status
      reads this
    {
      if node in status then status[node] else NONE
    }

    method AddNode(node: BlockNode, st: Status)
      modifies this
      ensures index == old(index)[node.Hash() := node] && status == old(status)[node := st]
      ensures dirty == old(dirty) + {node} && rows == old(rows)
    {
      index := index[node.Hash() := node];
      status := status[node := st];
      dirty := dirty + {node};
    }

    method SetStatusFlags(node: BlockNode, flags: Status)
      modifies this
      ensures index == old(index) && rows == old(rows) && dirty == old(dirty) + {node}
      ensures status == old(status)[node := old(NodeStatus(node)).With(flags)]
    {
      status := status[node := NodeStatus(node).With(flags)];
      dirty := dirty + {node};
    }

    /** Writes every dirty node, in whatever order, and clears the dirty set. */
    method FlushToDB()
      modifies this
      ensures index == old(index) && status == old(status) && dirty == {}
      ensures rows == old(rows) + map n | n in old(dirty) :: NodeStatus(n)
    {
      var todo := dirty;
      while todo != {}
        invariant index == old(index) && status == old(status) && dirty == old(dirty) && todo <= dirty
        invariant rows == old(rows) + map n | n in dirty - todo :: NodeStatus(n)
        decreases todo
      {
        var node :| node in todo;
        rows := rows[node := NodeStatus(node)];
        todo := todo - {node};
      }
      dirty := {};
    }
  }

  /** The part of blockchain/chain.go that selects and maintains the best chain. */
  class BlockChain {
    const index: BlockIndex
    const bestChain: ChainView
    var snapshot: BestState
    var hashIndex: map<Hash, nat>
    var heightIndex: map<nat, Hash>
    var spendJournal: set<Hash>
    var best: BestRecord
    /** The states in which the chain lock was released for a notification. */
    ghost var published: seq<Chain>

    ghost function Repr(): set<object>
      reads this, bestChain
    {
      {this, index, bestChain, bestChain.nodes}
    }

    ghost predicate Valid()
      reads Repr()
    {
      bestChain.Valid() && bestChain.branch != []
    }

    ghost function State(): Chain
      reads this, index, bestChain
    {
      Chain(index.index, index.status, index.dirty, bestChain.branch, snapshot,
            Buckets(index.rows, hashIndex, heightIndex, spendJournal, best))
    }

    /** A chain on a fresh database holds the genesis block alone. */
    constructor (genesis: Block)
      ensures Valid() && fresh(Repr()) && State() == Initial(genesis) && Inv(State()) && published == []
    {
      var node := Genesis(genesis);
      index := new BlockIndex(node, DATA_STORED.With(VALID));
      bestChain := new ChainView();
      snapshot := BestState(node.Hash(), 0, genesis.txns, genesis.txns, genesis.timestamp);
      hashIndex := map[node.Hash() := 0];
      heightIndex := map[0 := node.Hash()];
      spendJournal := {};
      best := BestRecord(node.Hash(), 0, genesis.txns, node.WorkSum());
      published := [];
      new;
      bestChain.SetTip(Some(node));
      ChainRuns.InitialInv(genesis);
    }

    /** The index operations, seen from the whole state. */
    method SetStatusFlags(node: BlockNode, flags: Status)
      requires Valid()
      modifies index
      ensures Valid() && State() == old(State()).SetFlags(node, flags)
    {
      index.SetStatusFlags(node, flags);
    }

    method FlushToDB()
      requires Valid()
      modifies index
      ensures Valid() && State() == old(State()).Flush()
    {
      index.FlushToDB();
      assert index.rows == old(State()).Flush().db.rows;
    }

    /** Fails unless the node extends the tip. */
    method ConnectBlock(node: BlockNode) returns (err: Error)
      requires Valid()
      modifies Repr()
      ensures Valid() && fresh(Repr() - old(Repr()))
      ensures var r := ChainState.ConnectBlock(old(State()), node);
        State() == r.chain && err == r.err && published == old(published) + r.published
    {
      hide Connected;
      if node.block.prevBlock != bestChain.Tip().value.Hash() {
        return AssertError;
      }
      FlushToDB();
      StoreConnected(node);
      published := published + [State()];
      return NoError;
    }

    method StoreConnected(node: BlockNode)
      requires Valid()
      modifies Repr()
      ensures Valid() && fresh(Repr() - old(Repr()))
      ensures State() == Connected(old(State()), node) && published == old(published)
    {
      hide PastMedian, IsBranch;
      var curTotalTxns := snapshot.totalTxns;
      var median := CalcPastMedianTime(node);
      var state := BestState(node.Hash(), node.Height(), node.block.txns, curTotalTxns + node.block.txns, median);
      best := BestRecord(state.hash, state.height, state.totalTxns, node.WorkSum());
      hashIndex := hashIndex[node.Hash() := node.Height()];
      heightIndex := heightIndex[node.Height() := node.Hash()];
      spendJournal := spendJournal + {node.Hash()};
      bestChain.SetTip(Some(node));
      snapshot := state;
    }

    /** Fails unless the node is the tip. */
    method DisconnectBlock(node: BlockNode) returns (err: Error)
      requires Valid() && node.Child?
      modifies Repr()
      ensures Valid() && fresh(Repr() - old(Repr()))
      ensures var r := ChainState.DisconnectBlock(old(State()), node);
        State() == r.chain && err == r.err && published == old(published) + r.published
    {
      hide Disconnected;
      if node.Hash() != bestChain.Tip().value.Hash() {
        return AssertError;
      }
      FlushToDB();
      StoreDisconnected(node);
      published := published + [State()];
      return NoError;
    }

    method StoreDisconnected(node: BlockNode)
      requires Valid() && node.Child?
      modifies Repr()
      ensures Valid() && fresh(Repr() - old(Repr()))
      ensures State() == Disconnected(old(State()), node) && published == old(published)
    {
      hide PastMedian, IsBranch;
      var prevNode := node.parent;
      var curTotalTxns := snapshot.totalTxns;
      var median := CalcPastMedianTime(prevNode);
      var state := BestState(prevNode.Hash(), prevNode.Height(), prevNode.block.txns, curTotalTxns - node.block.txns, median);
      best := BestRecord(state.hash, state.height, state.totalTxns, node.WorkSum());
      hashIndex := hashIndex - {node.Hash()};
      heightIndex := heightIndex - {node.Height()};
      spendJournal := spendJournal - {node.Hash()};
      bestChain.SetTip(Some(prevNode));
      snapshot := state;
    }

    /** Marks the listed nodes one after the other. */
    method MarkNodes(nodes: seq<BlockNode>, flags: Status)
      requires Valid()
      modifies index
      ensures Valid() && State() == MarkAll(old(State()), nodes, flags)
    {
      var i := 0;
      while i < |nodes|
        invariant 0 <= i <= |nodes|
        invariant Valid() && MarkAll(State(), nodes[i..], flags) == MarkAll(old(State()), nodes, flags)
      {
        SetStatusFlags(nodes[i], flags);
        assert nodes[i..][1..] == nodes[i + 1..];
        i := i + 1;
      }
    }

    method GetReorganizeNodes(node: BlockNode) returns (detach: seq<BlockNode>, attach: seq<BlockNode>)
      requires Valid() && node.Child? && Fork(bestChain.branch, node).Some?
      modifies index
      ensures Valid()
      ensures ChainState.GetReorganizeNodes(old(State()), node) == Reorg(State(), detach, attach)
    {
      attach, detach := [], [];
      if index.NodeStatus(node.parent).KnownInvalid() {
        SetStatusFlags(node, INVALID_ANCESTOR);
        return;
      }
      var fork := bestChain.FindFork(Some(node));
      var forkNode := fork.value;
      var invalidChain;
      invalidChain, attach := CollectBranch(node, forkNode);
      if invalidChain {
        MarkNodes(attach, INVALID_ANCESTOR);
        attach := [];
        return;
      }
      InBranch(bestChain.branch, forkNode);
      detach := CollectMainChain(bestChain.Tip().value, forkNode);
    }

    /** Walks from a node to the fork point, stopping at a known-invalid node. */
    method CollectBranch(node: BlockNode, forkNode: BlockNode) returns (invalidChain: bool, attach: seq<BlockNode>)
      requires forkNode.IsAncestorOf(node)
      ensures UpFromInvalid(State(), node, forkNode.Height()).0 == invalidChain
      ensures UpFromInvalid(State(), node, forkNode.Height()).1 == attach
    {
      attach, invalidChain := [], false;
      var n := node;
      while n != forkNode
        invariant forkNode.IsAncestorOf(n)
        invariant !invalidChain && UpFromInvalid(State(), node, forkNode.Height()).0 == UpFromInvalid(State(), n, forkNode.Height()).0
        invariant UpFromInvalid(State(), node, forkNode.Height()).1 == UpFromInvalid(State(), n, forkNode.Height()).1 + attach
        decreases n.Height()
      {
        if index.NodeStatus(n).KnownInvalid() {
          invalidChain := true;
          break;
        }
        attach := [n] + attach;
        n := n.parent;
      }
    }

    /** Walks from the tip to the fork point. */
    method CollectMainChain(tip: BlockNode, forkNode: BlockNode) returns (detach: seq<BlockNode>)
      requires forkNode.IsAncestorOf(tip)
      ensures detach == DownTo(tip, forkNode.Height())
    {
      detach := [];
      var n := tip;
      while n != forkNode
        invariant forkNode.IsAncestorOf(n)
        invariant DownTo(tip, forkNode.Height()) == detach + DownTo(n, forkNode.Height())
        decreases n.Height()
      {
        detach := detach + [n];
        n := n.parent;
      }
    }

    /** The check phase of a reorganization. */
    method CheckNodes(attach: seq<BlockNode>, verdict: BlockNode -> bool) returns (err: Error)
      requires Valid()
      modifies index
      ensures Valid() && CheckAttach(old(State()), attach, verdict) == Checked(State(), err)
    {
      var i := 0;
      while i < |attach|
        invariant 0 <= i <= |attach|
        invariant Valid() && CheckAttach(State(), attach[i..], verdict) == CheckAttach(old(State()), attach, verdict)
      {
        var n := attach[i];
        assert attach[i..][1..] == attach[i + 1..];
        i := i + 1;
        if index.NodeStatus(n).KnownValid() {
          continue;
        }
        if !verdict(n) {
          SetStatusFlags(n, VALIDATE_FAILED);
          MarkNodes(attach[i..], INVALID_ANCESTOR);
          return RuleError;
        }
        SetStatusFlags(n, VALID);
      }
      return NoError;
    }

    method DetachNodes(detach: seq<BlockNode>) returns (err: Error)
      requires Valid() && AllChildren(detach)
      modifies Repr()
      ensures Valid() && fresh(Repr() - old(Repr()))
      ensures var r := DetachAll(old(State()), detach);
        State() == r.chain && err == r.err && published == old(published) + r.published
    {
      hide DetachAll, ChainState.DisconnectBlock;
      var i := 0;
      ghost var r := DetachAll(State(), detach);
      assert detach[0..] == detach;
      while i < |detach|
        invariant 0 <= i <= |detach|
        invariant Valid() && fresh(Repr() - old(Repr()))
        invariant Continues(r, old(published), DetachAll(State(), detach[i..]), published)
      {
        assert detach[i..][1..] == detach[i + 1..];
        DetachOne(State(), detach[i..], r, old(published), published);
        err := DisconnectBlock(detach[i]);
        if err != NoError {
          return;
        }
        i := i + 1;
      }
      NothingLeft(State());
      assert detach[i..] == [];
      return NoError;
    }

    method AttachNodes(attach: seq<BlockNode>) returns (err: Error)
      requires Valid()
      modifies Repr()
      ensures Valid() && fresh(Repr() - old(Repr()))
      ensures var r := AttachAll(old(State()), attach);
        State() == r.chain && err == r.err && published == old(published) + r.published
    {
      hide AttachAll, ChainState.ConnectBlock;
      var i := 0;
      ghost var r := AttachAll(State(), attach);
      assert attach[0..] == attach;
      while i < |attach|
        invariant 0 <= i <= |attach|
        invariant Valid() && fresh(Repr() - old(Repr()))
        invariant Continues(r, old(published), AttachAll(State(), attach[i..]), published)
      {
        assert attach[i..][1..] == attach[i + 1..];
        AttachOne(State(), attach[i..], r, old(published), published);
        err := ConnectBlock(attach[i]);
        if err != NoError {
          return;
        }
        i := i + 1;
      }
      NothingLeft(State());
      assert attach[i..] == [];
      return NoError;
    }

    /** Validates everything before the chain is touched, then detaches and attaches. */
    method ReorganizeChain(detach: seq<BlockNode>, attach: seq<BlockNode>, verdict: BlockNode -> bool) returns (err: Error)
      requires Valid() && AllChildren(detach) && AllChildren(attach)
      modifies Repr()
      ensures Valid() && fresh(Repr() - old(Repr()))
      ensures var r := ChainState.ReorganizeChain(old(State()), detach, attach, verdict);
        State() == r.chain && err == r.err && published == old(published) + r.published
    {
      if |detach| == 0 && |attach| == 0 {
        return NoError;
      }
      var tip := bestChain.Tip().value;
      if |detach| != 0 && detach[0].Hash() != tip.Hash() {
        return AssertError;
      }
      if |attach| != 0 && |detach| != 0 {
        if attach[0].parent.Hash() != detach[|detach| - 1].parent.Hash() {
          return AssertError;
        }
      }
      err := CheckNodes(attach, verdict);
      if err != NoError {
        return;
      }
      err := SwitchNodes(detach, attach);
    }

    /** The mutation phase of a reorganization. */
    method SwitchNodes(detach: seq<BlockNode>, attach: seq<BlockNode>) returns (err: Error)
      requires Valid() && AllChildren(detach)
      modifies Repr()
      ensures Valid() && fresh(Repr() - old(Repr()))
      ensures var r := SwitchAll(old(State()), detach, attach);
        State() == r.chain && err == r.err && published == old(published) + r.published
    {
      hide DetachAll, AttachAll;
      ghost var s, log := State(), published;
      err := DetachNodes(detach);
      ghost var d := DetachAll(s, detach);
      if err != NoError {
        return;
      }
      err := AttachNodes(attach);
      ghost var a := AttachAll(d.chain, attach);
      assert log + d.published + a.published == log + (d.published + a.published);
    }

    method ConnectBestChain(node: BlockNode, fastAdd: bool, verdict: BlockNode -> bool) returns (isMainChain: bool, err: Error)
      requires Valid() && node.Child? && Fork(bestChain.branch, node).Some?
      modifies Repr()
      ensures Valid() && fresh(Repr() - old(Repr()))
      ensures var b := ChainState.ConnectBestChain(old(State()), node, fastAdd, verdict);
        State() == b.step.chain && err == b.step.err && isMainChain == b.isMainChain && published == old(published) + b.step.published
    {
      hide ChainState.ExtendMainChain, ChainState.ReorganizeChain, ChainState.GetReorganizeNodes, Fork;
      if node.block.prevBlock == bestChain.Tip().value.Hash() {
        isMainChain, err := ExtendMainChain(node, fastAdd, verdict);
        return;
      }
      if node.WorkSum() <= bestChain.Tip().value.WorkSum() {
        return false, NoError;
      }
      ghost var s := State();
      var detach, attach := GetReorganizeNodes(node);
      GetReorganizeNodesFrame(s, node);
      err := ReorganizeChain(detach, attach, verdict);
      FlushToDB();
      isMainChain := err == NoError;
    }

    /** The common case: the node extends the tip. */
    method ExtendMainChain(node: BlockNode, fastAdd: bool, verdict: BlockNode -> bool) returns (isMainChain: bool, err: Error)
      requires Valid()
      modifies Repr()
      ensures Valid() && fresh(Repr() - old(Repr()))
      ensures var b := ChainState.ExtendMainChain(old(State()), node, fastAdd, verdict);
        State() == b.step.chain && err == b.step.err && isMainChain == b.isMainChain && published == old(published) + b.step.published
    {
      hide ChainState.ConnectBlock, BlockNode.Path;
      var fast := fastAdd || index.NodeStatus(node).KnownValid();
      if !fast {
        var ok := ValidateNode(node, verdict);
        if !ok {
          return false, RuleError;
        }
      }
      err := ConnectBlock(node);
      if err != NoError {
        FlushToDB();
        return false, err;
      }
      if fast || !index.NodeStatus(node).KnownValid() {
        SetStatusFlags(node, VALID);
        FlushToDB();
      }
      return true, NoError;
    }

    /** Records the verdict on a node. */
    method ValidateNode(node: BlockNode, verdict: BlockNode -> bool) returns (ok: bool)
      requires Valid()
      modifies index
      ensures Valid() && ok == verdict(node)
      ensures State() == old(State()).SetFlags(node, if ok then VALID else VALIDATE_FAILED).Flush()
    {
      ok := verdict(node);
      SetStatusFlags(node, if ok then VALID else VALIDATE_FAILED);
      FlushToDB();
    }

    /** Adds a block to the index and writes its row. */
    method IndexBlock(block: Block, prevNode: BlockNode) returns (newNode: BlockNode)
      requires Valid()
      modifies index
      ensures Valid() && newNode == Child(block, prevNode)
      ensures State() == old(State()).AddNode(newNode, DATA_STORED).Flush()
    {
      newNode := Child(block, prevNode);
      index.AddNode(newNode, DATA_STORED);
      FlushToDB();
    }

    /** The entry point: all chain invariants hold again when it returns. */
    method MaybeAcceptBlock(block: Block, contextOk: bool, fastAdd: bool, verdict: BlockNode -> bool) returns (isMainChain: bool, err: Error)
      requires Valid() && Inv(State()) && block.hash !in index.index
      modifies Repr()
      ensures Valid() && fresh(Repr() - old(Repr())) && Inv(State())
      ensures var b := ChainRuns.Accept(old(State()), Input(block, contextOk, fastAdd, verdict));
        State() == b.step.chain && err == b.step.err && isMainChain == b.isMainChain && published == old(published) + b.step.published
      ensures ChainOutcomes.Decided(old(State()), Input(block, contextOk, fastAdd, verdict), State(), err, isMainChain)
    {
      hide Inv, ChainState.MaybeAcceptBlock, ChainRuns.Accepted, Fork, ChainOutcomes.Decided;
      ChainRuns.AcceptKeeps(State(), Input(block, contextOk, fastAdd, verdict));
      ChainOutcomes.AcceptOutcome(State(), Input(block, contextOk, fastAdd, verdict));
      isMainChain, err := IndexAndSelect(block, contextOk, fastAdd, verdict);
    }

    /** Indexes a block with a known parent and selects the best chain. */
    method IndexAndSelect(block: Block, contextOk: bool, fastAdd: bool, verdict: BlockNode -> bool) returns (isMainChain: bool, err: Error)
      requires Valid()
      requires block.prevBlock in index.index ==> Fork(bestChain.branch, Child(block, index.index[block.prevBlock])).Some?
      modifies Repr()
      ensures Valid() && fresh(Repr() - old(Repr()))
      ensures var b := ChainState.MaybeAcceptBlock(old(State()), Input(block, contextOk, fastAdd, verdict));
        State() == b.step.chain && err == b.step.err && isMainChain == b.isMainChain && published == old(published) + b.step.published
    {
      hide ChainState.ConnectBestChain, Fork;
      if block.prevBlock !in index.index {
        return false, RuleError;
      }
      var prevNode := index.index[block.prevBlock];
      if index.NodeStatus(prevNode).KnownInvalid() {
        return false, RuleError;
      }
      if !contextOk {
        return false, RuleError;
      }
      var newNode := IndexBlock(block, prevNode);
      isMainChain, err := ConnectBestChain(newNode, fastAdd, verdict);
      if err != NoError {
        return false, err;
      }
      published := published + [State()];
    }
  }
}
