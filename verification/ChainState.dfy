/**
 The best-chain state machine of blockchain/chain.go and blockchain/accept.go,
 written as functions on an immutable state. The class in BlockChain performs
 the same steps in place and is proved to agree with these functions.

 `checkConnectBlock` is an arbitrary verdict on a node, chosen anew for every step.
 */
module ChainState {
  import opened Common
  import opened BlockTree
  import opened MedianTime

  /** The status bit field of a node. */
  datatype Status = Status(dataStored: bool, valid: bool, validateFailed: bool, invalidAncestor: bool)
  {
    predicate KnownValid() { valid }

    predicate KnownInvalid() { validateFailed || invalidAncestor }

    /** Bitwise or: turns flags on and never off. */
    function With(flags: Status): Status {
      Status(dataStored || flags.dataStored, valid || flags.valid,
             validateFailed || flags.validateFailed, invalidAncestor || flags.invalidAncestor)
    }
  }

  const NONE := Status(false, false, false, false)
  const DATA_STORED := Status(true, false, false, false)
  const VALID := Status(false, true, false, false)
  const VALIDATE_FAILED := Status(false, false, true, false)
  const INVALID_ANCESTOR := Status(false, false, false, true)

  /** The snapshot of the best block that callers read. */
  datatype BestState = BestState(hash: Hash, height: nat, numTxns: nat, totalTxns: int, medianTime: int)

  /** The best state as it is persisted. */
  datatype BestRecord = BestRecord(hash: Hash, height: nat, totalTxns: int, workSum: nat)

  /** The database buckets: block index rows, the two main-chain indexes, the
      blocks that have a spend journal entry, and the best state record. */
  datatype Buckets = Buckets(
    rows: map<BlockNode, Status>,
    hashIndex: map<Hash, nat>,
    heightIndex: map<nat, Hash>,
    spendJournal: set<Hash>,
    best: BestRecord)

  datatype Error = NoError | AssertError | RuleError

  datatype Chain = Chain(
    index: map<Hash, BlockNode>,
    status: map<BlockNode, Status>,
    dirty: set<BlockNode>,
    view: seq<BlockNode>,
    snapshot: BestState,
    db: Buckets)
  {
    function Tip(): BlockNode
      requires view != []
    {
      view[|view| - 1]
    }

    function StatusOf(n: BlockNode): Status {
      if n in status then status[n] else NONE
    }

    function SetFlags(n: BlockNode, flags: Status): Chain {
      this.(status := status[n := StatusOf(n).With(flags)], dirty := dirty + {n})
    }

    /** Writes every dirty node to its row and empties the dirty set. */
    function Flush(): Chain {
      this.(db := db.(rows := db.rows + map n | n in dirty :: StatusOf(n)), dirty := {})
    }

    function AddNode(n: BlockNode, st: Status): Chain {
      this.(index := index[n.Hash() := n], status := status[n := st], dirty := dirty + {n})
    }
  }

  /** The result of an operation, with the states published while it ran: those
      in which it released the chain lock to send a notification. */
  datatype Step = Step(chain: Chain, err: Error, published: seq<Chain>)

  /** The tip becomes `n`: the database records and then the view and the snapshot. */
  function Connected(s: Chain, n: BlockNode): Chain {
    var total := s.snapshot.totalTxns + n.block.txns;
    s.(
      view := n.Path(),
      snapshot := BestState(n.Hash(), n.Height(), n.block.txns, total, PastMedian(n)),
      db := s.db.(
        best := BestRecord(n.Hash(), n.Height(), total, n.WorkSum()),
        hashIndex := s.db.hashIndex[n.Hash() := n.Height()],
        heightIndex := s.db.heightIndex[n.Height() := n.Hash()],
        spendJournal := s.db.spendJournal + {n.Hash()}))
  }

  /** The tip becomes the parent of `n`. */
  function Disconnected(s: Chain, n: BlockNode): Chain
    requires n.Child?
  {
    var prev := n.parent;
    var total := s.snapshot.totalTxns - n.block.txns;
    s.(
      view := prev.Path(),
      snapshot := BestState(prev.Hash(), prev.Height(), prev.block.txns, total, PastMedian(prev)),
      db := s.db.(
        best := BestRecord(prev.Hash(), prev.Height(), total, n.WorkSum()),
        hashIndex := s.db.hashIndex - {n.Hash()},
        heightIndex := s.db.heightIndex - {n.Height()},
        spendJournal := s.db.spendJournal - {n.Hash()}))
  }

  function ConnectBlock(s: Chain, n: BlockNode): (r: Step)
    requires s.view != []
    ensures r.chain.view != []
  {
    if n.block.prevBlock != s.Tip().Hash() then Step(s, AssertError, [])
    else
      var c := Connected(s.Flush(), n);
      Step(c, NoError, [c])
  }

  function DisconnectBlock(s: Chain, n: BlockNode): (r: Step)
    requires s.view != [] && n.Child?
    ensures r.chain.view != []
  {
    if n.Hash() != s.Tip().Hash() then Step(s, AssertError, [])
    else
      var c := Disconnected(s.Flush(), n);
      Step(c, NoError, [c])
  }

  function MarkAll(s: Chain, nodes: seq<BlockNode>, flags: Status): Chain
    decreases |nodes|
  {
    if nodes == [] then s else MarkAll(s.SetFlags(nodes[0], flags), nodes[1..], flags)
  }

  /** The nodes from `n` down to just above height `k`: what is detached. */
  function DownTo(n: BlockNode, k: nat): (d: seq<BlockNode>) {
    if n.Height() <= k then [] else [n] + DownTo(n.parent, k)
  }

  /** The nodes from just above height `k` up to `n`: what is attached. */
  function UpFrom(n: BlockNode, k: nat): (a: seq<BlockNode>) {
    if n.Height() <= k then [] else UpFrom(n.parent, k) + [n]
  }

  /** The nodes above the topmost known-invalid node between `n` and height `k`, with
      whether there is such a node. */
  function UpFromInvalid(s: Chain, n: BlockNode, k: nat): (r: (bool, seq<BlockNode>)) {
    if n.Height() <= k then (false, [])
    else if s.StatusOf(n).KnownInvalid() then (true, [])
    else
      var (found, above) := UpFromInvalid(s, n.parent, k);
      (found, above + [n])
  }

  datatype Reorg = Reorg(chain: Chain, detach: seq<BlockNode>, attach: seq<BlockNode>)

  /** Which nodes to detach and attach so that `n` becomes the tip; a branch known
      to be invalid is marked as such and yields empty lists. */
  function GetReorganizeNodes(s: Chain, n: BlockNode): Reorg
    requires s.view != [] && n.Child? && Fork(s.view, n).Some?
  {
    if s.StatusOf(n.parent).KnownInvalid() then Reorg(s.SetFlags(n, INVALID_ANCESTOR), [], [])
    else
      var fork := Fork(s.view, n).value.Height();
      var (invalid, above) := UpFromInvalid(s, n, fork);
      if invalid then Reorg(MarkAll(s, above, INVALID_ANCESTOR), [], [])
      else Reorg(s, DownTo(s.Tip(), fork), above)
  }

  datatype Checked = Checked(chain: Chain, err: Error)

  /** The check phase: validates the nodes to attach in order, without connecting them. */
  function CheckAttach(s: Chain, attach: seq<BlockNode>, verdict: BlockNode -> bool): Checked
    decreases |attach|
  {
    if attach == [] then Checked(s, NoError)
    else if s.StatusOf(attach[0]).KnownValid() then CheckAttach(s, attach[1..], verdict)
    else if verdict(attach[0]) then CheckAttach(s.SetFlags(attach[0], VALID), attach[1..], verdict)
    else Checked(MarkAll(s.SetFlags(attach[0], VALIDATE_FAILED), attach[1..], INVALID_ANCESTOR), RuleError)
  }

  /** Every listed node has a parent. */
  predicate AllChildren(nodes: seq<BlockNode>) {
    forall i :: 0 <= i < |nodes| ==> nodes[i].Child?
  }

  function DetachAll(s: Chain, detach: seq<BlockNode>): (r: Step)
    requires s.view != [] && AllChildren(detach)
    ensures r.chain.view != []
    decreases |detach|
  {
    if detach == [] then Step(s, NoError, [])
    else
      var d := DisconnectBlock(s, detach[0]);
      if d.err != NoError then d
      else
        var rest := DetachAll(d.chain, detach[1..]);
        rest.(published := d.published + rest.published)
  }

  function AttachAll(s: Chain, attach: seq<BlockNode>): (r: Step)
    requires s.view != []
    ensures r.chain.view != []
    decreases |attach|
  {
    if attach == [] then Step(s, NoError, [])
    else
      var c := ConnectBlock(s, attach[0]);
      if c.err != NoError then c
      else
        var rest := AttachAll(c.chain, attach[1..]);
        rest.(published := c.published + rest.published)
  }

  /** The sanity assertions at the start of a reorganization. */
  predicate ListsMatch(s: Chain, detach: seq<BlockNode>, attach: seq<BlockNode>)
    requires s.view != [] && AllChildren(detach) && AllChildren(attach)
  {
    && (detach != [] ==> detach[0].Hash() == s.Tip().Hash())
    && (detach != [] && attach != [] ==>
          attach[0].parent.Hash() == detach[|detach| - 1].parent.Hash())
  }

  /** Validates first, and only then detaches and attaches. */
  function ReorganizeChain(s: Chain, detach: seq<BlockNode>, attach: seq<BlockNode>, verdict: BlockNode -> bool): (r: Step)
    requires s.view != [] && AllChildren(detach) && AllChildren(attach)
    ensures r.chain.view != []
  {
    if detach == [] && attach == [] then Step(s, NoError, [])
    else if !ListsMatch(s, detach, attach) then Step(s, AssertError, [])
    else
      var checked := CheckAttach(s, attach, verdict);
      CheckAttachFrame(s, attach, verdict);
      if checked.err != NoError then Step(checked.chain, checked.err, [])
      else SwitchAll(checked.chain, detach, attach)
  }

  /** The mutation phase: detaches to the fork point, then attaches. */
  function SwitchAll(s: Chain, detach: seq<BlockNode>, attach: seq<BlockNode>): (r: Step)
    requires s.view != [] && AllChildren(detach)
    ensures r.chain.view != []
  {
    var d := DetachAll(s, detach);
    if d.err != NoError then d
    else
      var a := AttachAll(d.chain, attach);
      a.(published := d.published + a.published)
  }

  datatype Best = Best(step: Step, isMainChain: bool)

  /** Extending the tip: validate unless told not to, connect, and mark as valid. */
  function ExtendMainChain(s: Chain, n: BlockNode, fastAdd: bool, verdict: BlockNode -> bool): (b: Best)
    requires s.view != []
    ensures b.step.chain.view != []
  {
    var fast := fastAdd || s.StatusOf(n).KnownValid();
    if !fast && !verdict(n) then
      Best(Step(s.SetFlags(n, VALIDATE_FAILED).Flush(), RuleError, []), false)
    else
      var c := ConnectBlock(if fast then s else s.SetFlags(n, VALID).Flush(), n);
      if c.err != NoError then Best(c.(chain := c.chain.Flush()), false)
      else if fast || !c.chain.StatusOf(n).KnownValid() then
        Best(c.(chain := c.chain.SetFlags(n, VALID).Flush()), true)
      else Best(c, true)
  }

  /** Switching to a side chain with more work. */
  function SwitchToSideChain(s: Chain, n: BlockNode, verdict: BlockNode -> bool): (b: Best)
    requires s.view != [] && n.Child? && Fork(s.view, n).Some?
    ensures b.step.chain.view != []
  {
    var g := GetReorganizeNodes(s, n);
    GetReorganizeNodesFrame(s, n);
    var r := ReorganizeChain(g.chain, g.detach, g.attach, verdict);
    Best(r.(chain := r.chain.Flush()), r.err == NoError)
  }

  /** Connects a freshly indexed node when it extends the tip, leaves it on a side
      chain when that has no more work, and reorganizes to it otherwise. */
  function ConnectBestChain(s: Chain, n: BlockNode, fastAdd: bool, verdict: BlockNode -> bool): (b: Best)
    requires s.view != [] && n.Child? && Fork(s.view, n).Some?
    ensures b.step.chain.view != []
  {
    if n.block.prevBlock == s.Tip().Hash() then ExtendMainChain(s, n, fastAdd, verdict)
    else if n.WorkSum() <= s.Tip().WorkSum() then Best(Step(s, NoError, []), false)
    else SwitchToSideChain(s, n, verdict)
  }

  /** One call of the entry point: the block, whether its contextual checks pass,
      the fast-add flag, and the verdicts of the connection checks. */
  datatype Input = Input(block: Block, contextOk: bool, fastAdd: bool, verdict: BlockNode -> bool)

  function NewNode(s: Chain, b: Block): BlockNode
    requires b.prevBlock in s.index
  {
    Child(b, s.index[b.prevBlock])
  }

  /** The state right before best-chain selection: the node is indexed and flushed. */
  function Indexing(s: Chain, b: Block): Chain
    requires b.prevBlock in s.index
  {
    s.AddNode(NewNode(s, b), DATA_STORED).Flush()
  }

  /** Whether the block gets past the checks that precede indexing. */
  predicate Admitted(s: Chain, i: Input) {
    i.block.prevBlock in s.index && !s.StatusOf(s.index[i.block.prevBlock]).KnownInvalid() && i.contextOk
  }

  function MaybeAcceptBlock(s: Chain, i: Input): (b: Best)
    requires s.view != []
    ensures b.step.chain.view != []
    requires i.block.prevBlock in s.index ==> Fork(s.view, NewNode(s, i.block)).Some?
  {
    if !Admitted(s, i) then Best(Step(s, RuleError, []), false)
    else
      var b := ConnectBestChain(Indexing(s, i.block), NewNode(s, i.block), i.fastAdd, i.verdict);
      if b.step.err != NoError then b.(isMainChain := false)
      else b.(step := b.step.(published := b.step.published + [b.step.chain]))
  }

  /** The state a fresh database is given: the genesis block alone. */
  function Initial(genesis: Block): Chain {
    var n := Genesis(genesis);
    var st := DATA_STORED.With(VALID);
    Chain(
      map[n.Hash() := n], map[n := st], {}, [n],
      BestState(n.Hash(), 0, genesis.txns, genesis.txns, genesis.timestamp),
      Buckets(map[n := st], map[n.Hash() := 0], map[0 := n.Hash()], {},
              BestRecord(n.Hash(), 0, genesis.txns, n.WorkSum())))
  }

  /** Two states that differ in status flags and pending writes only. */
  predicate SameButFlags(s: Chain, t: Chain) {
    t.index == s.index && t.view == s.view && t.snapshot == s.snapshot && t.db == s.db
  }

  lemma {:induction false} MarkAllFrame(s: Chain, nodes: seq<BlockNode>, flags: Status)
    ensures SameButFlags(s, MarkAll(s, nodes, flags))
    decreases |nodes|
  {
    if nodes != [] {
      MarkAllFrame(s.SetFlags(nodes[0], flags), nodes[1..], flags);
    }
  }

  /** The check phase changes nothing but status flags. */
  lemma {:induction false} CheckAttachFrame(s: Chain, attach: seq<BlockNode>, verdict: BlockNode -> bool)
    ensures SameButFlags(s, CheckAttach(s, attach, verdict).chain)
    decreases |attach|
  {
    if attach == [] {
    } else if s.StatusOf(attach[0]).KnownValid() {
      CheckAttachFrame(s, attach[1..], verdict);
    } else if verdict(attach[0]) {
      CheckAttachFrame(s.SetFlags(attach[0], VALID), attach[1..], verdict);
    } else {
      MarkAllFrame(s.SetFlags(attach[0], VALIDATE_FAILED), attach[1..], INVALID_ANCESTOR);
    }
  }

  lemma {:induction false} ListsAreChildren(s: Chain, n: BlockNode, k: nat)
    ensures AllChildren(DownTo(n, k)) && AllChildren(UpFromInvalid(s, n, k).1)
  {
    if n.Height() > k {
      ListsAreChildren(s, n.parent, k);
    }
  }

  /** Choosing the lists changes nothing but status flags, and every listed node has a parent. */
  lemma GetReorganizeNodesFrame(s: Chain, n: BlockNode)
    requires s.view != [] && n.Child? && Fork(s.view, n).Some?
    ensures
      var g := GetReorganizeNodes(s, n);
      SameButFlags(s, g.chain) && AllChildren(g.detach) && AllChildren(g.attach)
  {
    var fork := Fork(s.view, n).value.Height();
    ListsAreChildren(s, n, fork);
    ListsAreChildren(s, s.Tip(), fork);
    MarkAllFrame(s, UpFromInvalid(s, n, fork).1, INVALID_ANCESTOR);
  }
}
