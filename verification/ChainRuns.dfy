/** Every run of the best-chain state machine from genesis. */
module ChainRuns {
  import opened Common
  import opened BlockTree
  import opened MedianTime
  import opened ChainState
  import opened ChainInvariants
  import opened WorkRecords
  import opened ChainReorg

  lemma InitialInv(genesis: Block)
    ensures Inv(Initial(genesis))
  {
    var s, n := Initial(genesis), Genesis(genesis);
    assert s.Tip() == n;
    assert Recent(n, MEDIAN_TIME_BLOCKS) == [genesis.timestamp];
    assert n.At(0) == n;
  }

  /** The state every run starts from. */
  ghost function Start(genesis: Block): (s: Chain)
    ensures Inv(s) && s == Initial(genesis)
  {
    InitialInv(genesis);
    Initial(genesis)
  }

  /** Indexing a block with a new hash adds one node without children, not yet validated, and
      leaves everything ready for chain selection. */
  lemma IndexingReady(s: Chain, i: Input)
    requires Inv(s) && Admitted(s, i) && i.block.hash !in s.index
    ensures Ready(Indexing(s, i.block), NewNode(s, i.block))
    ensures SameMainChain(s, Indexing(s, i.block))
    ensures
      var n, t := NewNode(s, i.block), Indexing(s, i.block);
      && n !in s.status && t.status == s.status[n := DATA_STORED] && t.index == s.index[i.block.hash := n]
      && forall m :: m in t.status && m.Child? ==> m.parent != n
  {
    hide StatusOk, ViewOk, TreeOk, RowsOk, Dead, Structure;
    var n := NewNode(s, i.block);
    var a := s.AddNode(n, DATA_STORED);
    LookupKnown(s, i.block.prevBlock);
    IndexingStructure(s, n);
    IndexingStatus(s, n);
    FlushStructure(a);
    var t := Indexing(s, i.block);
    assert t.status == a.status && t.view == s.view && t.Tip() == s.Tip() && s.Tip() != n;
    forall m | m in t.status && m != n && !Dead(t.status, m)
      ensures m.WorkSum() <= t.Tip().WorkSum()
    {
      if Dead(s.status, m) {
        DeadCarries(s.status, n, DATA_STORED, m);
        assert false;
      }
    }
    forall m | m in t.status && m.Child? ensures m.parent != n {
      if m != n {
        ParentKnown(s, m);
      }
    }
  }

  lemma DeadCarries(status: map<BlockNode, Status>, n: BlockNode, st: Status, m: BlockNode)
    requires n !in status && Dead(status, m)
    ensures Dead(status[n := st], m)
  {
    var h: nat :| h <= m.Height() && m.At(h) in status && status[m.At(h)].KnownInvalid();
    assert status[n := st][m.At(h)].KnownInvalid();
  }

  lemma TreeGrows(index: map<Hash, BlockNode>, nodes: set<BlockNode>, root: BlockNode, n: BlockNode)
    requires TreeOk(index, nodes, root) && n.Hash() !in index
    requires n.Child? && n.parent in nodes && n.block.prevBlock == n.parent.Hash()
    ensures n !in nodes && TreeOk(index[n.Hash() := n], nodes + {n}, root)
  {
    var index', nodes' := index[n.Hash() := n], nodes + {n};
    assert forall h :: h in index' ==> index'[h].Hash() == h && index'[h] in nodes';
    assert forall m :: m in nodes' ==> m.Hash() in index' && index'[m.Hash()] == m;
    forall m | m in nodes' ensures ParentIn(nodes', m) {
      assert m in nodes ==> ParentIn(nodes, m);
    }
  }

  lemma IndexingStructure(s: Chain, n: BlockNode)
    requires Consistent(s) && n.Hash() !in s.index
    requires n.Child? && n.parent in s.status && n.block.prevBlock == n.parent.Hash()
    ensures n !in s.status && Structure(s.AddNode(n, DATA_STORED))
  {
    hide TreeOk;
    TreeGrows(s.index, s.status.Keys, s.view[0], n);
    var a := s.AddNode(n, DATA_STORED);
    assert a.status.Keys == s.status.Keys + {n};
  }

  lemma IndexingStatus(s: Chain, n: BlockNode)
    requires StatusOk(s.status) && n !in s.status
    ensures StatusOk(s.AddNode(n, DATA_STORED).status)
  {
    var after := s.AddNode(n, DATA_STORED).status;
    forall m | m in after && after[m].valid ensures ValidParent(after, m) {
      assert ValidParent(s.status, m);
    }
    forall m | m in after && after[m].invalidAncestor
      ensures FailedBelow(after, m)
    {
      var h: nat :| h < m.Height() && m.At(h) in s.status && s.status[m.At(h)].validateFailed;
      assert after[m.At(h)].validateFailed;
    }
  }

  /** View, snapshot and main-chain buckets are untouched. */
  ghost predicate SameMainChain(s: Chain, t: Chain) {
    && t.view == s.view && t.snapshot == s.snapshot
    && t.db == s.db.(rows := t.db.rows)
  }

  /** What chain selection guarantees for a ready node. */
  ghost predicate Selected(s: Chain, n: BlockNode, b: Best) {
    && s.view != [] && n.Child?
    && Inv(b.step.chain)
    && AllSound(b.step.published)
    && RecordsExact(s.Tip(), b.step.published) && LastTip(s.Tip(), b.step.published) == b.step.chain.Tip()
    && b.step.err != AssertError
    && b.step.chain.index == s.index && Grew(s.status, b.step.chain.status)
    && (b.step.chain.Tip() == n || b.step.chain.Tip() == s.Tip())
    && (b.step.chain.Tip() == s.Tip() ==> SameMainChain(s, b.step.chain) && b.step.published == [])
    && (b.step.chain.Tip() == n ==> b.isMainChain && b.step.err == NoError)
    && (b.step.chain.Tip() == n && n.parent != s.Tip() ==> n.WorkSum() > s.Tip().WorkSum())
    && (b.step.err == RuleError ==> Dead(b.step.chain.status, n) && !b.isMainChain && b.step.chain.Tip() == s.Tip())
  }

  lemma MostWorkKept(s: Chain, n: BlockNode, t: Chain)
    requires Ready(s, n) && t.view != [] && Grew(s.status, t.status)
    requires t.Tip().WorkSum() >= s.Tip().WorkSum()
    requires Dead(t.status, n) || n.WorkSum() <= t.Tip().WorkSum()
    ensures MostWork(t)
  {
    forall m | m in t.status && !Dead(t.status, m)
      ensures m.WorkSum() <= t.Tip().WorkSum()
    {
      if m != n && Dead(s.status, m) {
        DeadStays(s.status, t.status, m);
        assert false;
      }
    }
  }

  lemma ExtendFails(s: Chain, n: BlockNode)
    requires Ready(s, n)
    ensures Selected(s, n, Best(Step(s.SetFlags(n, VALIDATE_FAILED).Flush(), RuleError, []), false))
  {
    var u := s.SetFlags(n, VALIDATE_FAILED);
    SetFlagsStructure(s, n, VALIDATE_FAILED);
    MarkKeeps(s, n, VALIDATE_FAILED);
    SetFlagsGrew(s, n, VALIDATE_FAILED);
    FlushStructure(u);
    assert n.At(n.Height()) == n;
    assert Dead(u.status, n);
    assert n != s.Tip();
    MostWorkKept(s, n, u.Flush());
  }

  /** Marking a child of the tip valid and then connecting it. */
  lemma ExtendSucceeds(s: Chain, n: BlockNode)
    requires Ready(s, n) && n.parent == s.Tip()
    ensures
      var c := ConnectBlock(s.SetFlags(n, VALID).Flush(), n);
      && c.err == NoError && c.chain.StatusOf(n).valid && c.chain.Tip() == n
      && Selected(s, n, Best(c, true))
  {
    hide StatusOk, Grew, MostWork, Structure, Dead, Sound, RecordsExact, LastTip, RecordRight, RemovesWork, ConnectBlock;
    var u := s.SetFlags(n, VALID);
    MarkKeeps(s, n, VALID);
    SetFlagsGrew(s, n, VALID);
    SetFlagsStructure(s, n, VALID);
    FlushStructure(u);
    ConnectKeeps(u.Flush(), n);
    ConnectRecord(u.Flush(), n);
    var c := ConnectBlock(u.Flush(), n).chain;
    MostWorkKept(s, n, c);
    InvSound(c);
    OneRecord(s.Tip(), c);
  }

  /** Fast add: connecting a child of the tip first and marking it valid afterwards. */
  lemma FastExtendSucceeds(s: Chain, n: BlockNode)
    requires Ready(s, n) && n.parent == s.Tip()
    ensures
      var c := ConnectBlock(s, n);
      && c.err == NoError && c.chain.Tip() == n
      && Selected(s, n, Best(c.(chain := c.chain.SetFlags(n, VALID).Flush()), true))
  {
    hide StatusOk, Grew, MostWork, Structure, Dead, RecordsExact, LastTip, RemovesWork, ConnectBlock;
    ConnectKeeps(s, n);
    ConnectRecord(s, n);
    var c := ConnectBlock(s, n).chain;
    OneRecord(s.Tip(), c);
    NotDead(c.status, n);
    var u := c.SetFlags(n, VALID);
    MarkKeeps(c, n, VALID);
    SetFlagsGrew(c, n, VALID);
    SetFlagsStructure(c, n, VALID);
    FlushStructure(u);
    MostWorkKept(s, n, u.Flush());
  }

  /** A side-chain node with more work than the tip, on a branch known to be invalid. */
  lemma InvalidBranchSelected(s: Chain, n: BlockNode, k: nat)
    requires Ready(s, n) && k <= n.Height() && UpFromInvalid(s, n, k).0
    ensures
      var t := MarkAll(s, UpFromInvalid(s, n, k).1, INVALID_ANCESTOR);
      Selected(s, n, Best(Step(t.Flush(), NoError, []), true))
  {
    var t := MarkAll(s, UpFromInvalid(s, n, k).1, INVALID_ANCESTOR);
    InvalidBranchKeeps(s, n, k);
    MarkAllFrame(s, UpFromInvalid(s, n, k).1, INVALID_ANCESTOR);
    FlushStructure(t);
    MostWorkKept(s, n, t.Flush());
    NotInMainChain(s, n);
  }

  /** A side-chain node with more work than the tip, on a branch not known to be invalid. */
  lemma SwitchSelected(s: Chain, n: BlockNode, r: Step)
    requires Ready(s, n) && n.WorkSum() > s.Tip().WorkSum()
    requires AllSound(r.published) && RecordsExact(s.Tip(), r.published) && Structure(r.chain) && StatusOk(r.chain.status)
    requires Grew(s.status, r.chain.status) && r.err != AssertError && r.chain.index == s.index
    requires r.err == NoError ==>
      r.chain.Tip() == n && r.chain.status[n].valid && LastTip(s.Tip(), r.published) == n && RecordRight(r.chain)
    requires r.err == RuleError ==> SameButFlags(s, r.chain) && r.published == [] && Dead(r.chain.status, n)
    ensures Selected(s, n, Best(r.(chain := r.chain.Flush()), r.err == NoError))
  {
    FlushStructure(r.chain);
    MostWorkKept(s, n, r.chain.Flush());
    NotInMainChain(s, n);
    assert n != s.Tip();
  }

  /** A side-chain node with more work than the tip. */
  lemma ReorganizeSelected(s: Chain, n: BlockNode, verdict: BlockNode -> bool)
    requires Ready(s, n) && Fork(s.view, n).Some? && n.WorkSum() > s.Tip().WorkSum()
    requires AllChildren(GetReorganizeNodes(s, n).detach) && AllChildren(GetReorganizeNodes(s, n).attach)
    requires SameButFlags(s, GetReorganizeNodes(s, n).chain)
    ensures Selected(s, n, SwitchToSideChain(s, n, verdict))
  {
    var k := Fork(s.view, n).value.Height();
    NotInMainChain(s, n);
    if UpFromInvalid(s, n, k).0 {
      InvalidBranchSelected(s, n, k);
    } else {
      SwitchKeeps(s, n, verdict);
      var g := GetReorganizeNodes(s, n);
      SwitchSelected(s, n, ReorganizeChain(s, g.detach, g.attach, verdict));
    }
  }

  /** A node that has not been validated is not on the main chain. */
  lemma NotInMainChain(s: Chain, n: BlockNode)
    requires Ready(s, n)
    ensures !InView(s.view, n)
  {
    if InView(s.view, n) {
      MainChainValid(s, n.Height());
      assert false;
    }
  }

  lemma ExtendSelected(s: Chain, n: BlockNode, fastAdd: bool, verdict: BlockNode -> bool)
    requires Ready(s, n) && n.parent == s.Tip()
    ensures Selected(s, n, ExtendMainChain(s, n, fastAdd, verdict))
    ensures ExtendMainChain(s, n, fastAdd, verdict).step.chain.Tip() == n <==> fastAdd || verdict(n)
    ensures ExtendMainChain(s, n, fastAdd, verdict).step.err == RuleError <==> !fastAdd && !verdict(n)
  {
    hide Selected, Structure, StatusOk, Dead, ConnectBlock;
    if fastAdd {
      FastExtendSucceeds(s, n);
      var c := ConnectBlock(s, n);
      assert ExtendMainChain(s, n, fastAdd, verdict) == Best(c.(chain := c.chain.SetFlags(n, VALID).Flush()), true);
    } else if verdict(n) {
      ExtendSucceeds(s, n);
      var c := ConnectBlock(s.SetFlags(n, VALID).Flush(), n);
      assert ExtendMainChain(s, n, fastAdd, verdict) == Best(c, true);
    } else {
      ExtendFails(s, n);
      NotInMainChain(s, n);
      assert s.Tip() != n;
    }
  }

  lemma SideChainSelected(s: Chain, n: BlockNode)
    requires Ready(s, n) && n.WorkSum() <= s.Tip().WorkSum()
    ensures Selected(s, n, Best(Step(s, NoError, []), false))
  {
    hide StatusOk, MostWork, Structure, Dead;
    NotInMainChain(s, n);
    MostWorkKept(s, n, s);
  }

  /** Chain selection, whatever the branch taken. */
  lemma SelectionKeeps(s: Chain, n: BlockNode, fastAdd: bool, verdict: BlockNode -> bool)
    requires Ready(s, n) && Fork(s.view, n).Some?
    ensures Selected(s, n, ConnectBestChain(s, n, fastAdd, verdict))
  {
    hide Structure, StatusOk, Dead, Selected, ExtendMainChain, SwitchToSideChain;
    ExtendsTip(s, n);
    if n.parent == s.Tip() {
      ExtendSelected(s, n, fastAdd, verdict);
    } else {
      if n.WorkSum() <= s.Tip().WorkSum() {
        SideChainSelected(s, n);
      } else {
        GetReorganizeNodesFrame(s, n);
        ReorganizeSelected(s, n, verdict);
      }
    }
  }

  /** The entry point may be called: a node whose parent is known has a fork point. */
  lemma AcceptCallable(s: Chain, b: Block)
    requires Inv(s) && b.prevBlock in s.index
    ensures Fork(s.view, NewNode(s, b)).Some?
  {
    hide StatusOk, MostWork, RowsOk;
    var p := s.index[b.prevBlock];
    AncestorsKnown(s.index, s.status.Keys, s.view[0], p, 0);
    ForkExists(s.view, NewNode(s, b));
  }

  /** What one call of the entry point guarantees: all invariants are kept, every published
      state is sound and has a wrong work record exactly after the removal of a block with work,
      work never goes down, and only more work moves the tip sideways. */
  ghost predicate Accepted(tip: BlockNode, b: Best)
    ensures Accepted(tip, b) ==> Inv(b.step.chain)
  {
    && Inv(b.step.chain) && AllSound(b.step.published) && b.step.err != AssertError
    && RecordsExact(tip, b.step.published) && LastTip(tip, b.step.published) == b.step.chain.Tip()
    && tip.WorkSum() <= b.step.chain.Tip().WorkSum()
    && var t := b.step.chain.Tip();
      t == tip || (t.Child? && t.parent == tip) || tip.WorkSum() < t.WorkSum()
  }

  lemma SelectedIsAccepted(s: Chain, n: BlockNode, b: Best)
    requires s.view != [] && Selected(s, n, b)
    ensures Accepted(s.Tip(), b.(isMainChain := false))
    ensures Accepted(s.Tip(), b.(step := b.step.(published := b.step.published + [b.step.chain])))
  {
    hide Structure, StatusOk, MostWork, Grew, Dead, Sound, RecordsExact, LastTip;
    var t := b.step.chain.Tip();
    assert s.Tip().WorkSum() <= t.WorkSum();
    assert t == s.Tip() || (t.Child? && t.parent == s.Tip()) || s.Tip().WorkSum() < t.WorkSum();
    InvSound(b.step.chain);
    AllSoundConcat(b.step.published, [b.step.chain]);
    OneRecord(t, b.step.chain);
    RecordsConcat(s.Tip(), b.step.published, [b.step.chain]);
  }

  lemma RejectedKeeps(s: Chain)
    requires Inv(s)
    ensures Accepted(s.Tip(), Best(Step(s, RuleError, []), false))
  {
  }

  lemma AcceptKeeps(s: Chain, i: Input)
    requires Inv(s) && i.block.hash !in s.index
    ensures i.block.prevBlock in s.index ==> Fork(s.view, NewNode(s, i.block)).Some?
    ensures Accepted(s.Tip(), MaybeAcceptBlock(s, i))
  {
    hide Inv, Ready, Selected, Accepted, Fork, ConnectBestChain, Structure, Consistent;
    if i.block.prevBlock in s.index {
      AcceptCallable(s, i.block);
    }
    if Admitted(s, i) {
      var n, t := NewNode(s, i.block), Indexing(s, i.block);
      IndexingReady(s, i);
      SelectionKeeps(t, n, i.fastAdd, i.verdict);
      SelectedIsAccepted(t, n, ConnectBestChain(t, n, i.fastAdd, i.verdict));
    } else {
      RejectedKeeps(s);
    }
  }

  /** The entry point, called between steps with a block whose hash is new. */
  ghost function Accept(s: Chain, i: Input): (b: Best)
    requires Inv(s) && i.block.hash !in s.index
    ensures Accepted(s.Tip(), b)
  {
    AcceptKeeps(s, i);
    MaybeAcceptBlock(s, i)
  }

  /** A run: the states after each input; inputs bring new hashes only. */
  ghost predicate NewHashes(s: Chain, inputs: seq<Input>)
    requires Inv(s)
    decreases |inputs|
  {
    inputs != [] ==>
      && inputs[0].block.hash !in s.index
      && NewHashes(Accept(s, inputs[0]).step.chain, inputs[1..])
  }

  ghost function Run(s: Chain, inputs: seq<Input>): (t: Chain)
    requires Inv(s) && NewHashes(s, inputs)
    ensures Inv(t)
    decreases |inputs|
  {
    if inputs == [] then s else Run(Accept(s, inputs[0]).step.chain, inputs[1..])
  }

  /** All states published during a run. */
  ghost function Published(s: Chain, inputs: seq<Input>): (states: seq<Chain>)
    requires Inv(s) && NewHashes(s, inputs)
    decreases |inputs|
  {
    if inputs == [] then []
    else
      var b := Accept(s, inputs[0]);
      b.step.published + Published(b.step.chain, inputs[1..])
  }

  /** In every run, whatever is published is sound, also in the middle of a reorganization, and
      exactly those states have a wrong work record that removed a block with work. */
  lemma {:induction false} PublishedSound(s: Chain, inputs: seq<Input>)
    requires Inv(s) && NewHashes(s, inputs)
    ensures AllSound(Published(s, inputs))
    ensures RecordsExact(s.Tip(), Published(s, inputs))
    decreases |inputs|
  {
    hide Inv, Sound, RecordsExact, LastTip;
    if inputs == [] {
      NoRecords(s.Tip());
    } else {
      var b := Accept(s, inputs[0]);
      PublishedSound(b.step.chain, inputs[1..]);
      AllSoundConcat(b.step.published, Published(b.step.chain, inputs[1..]));
      RecordsConcat(s.Tip(), b.step.published, Published(b.step.chain, inputs[1..]));
    }
  }

  /** In every run, the work of the tip never decreases. */
  lemma {:induction false} RunWork(s: Chain, inputs: seq<Input>)
    requires Inv(s) && NewHashes(s, inputs)
    ensures s.Tip().WorkSum() <= Run(s, inputs).Tip().WorkSum()
    decreases |inputs|
  {
    if inputs != [] {
      RunWork(Accept(s, inputs[0]).step.chain, inputs[1..]);
    }
  }

  /** Every run from genesis: the tip is a known-valid block of most work among all blocks
      without a known-invalid node on their path, flags obey their laws, the whole main chain
      is known valid, its work is what is persisted, and every published state was sound. */
  lemma EveryRunIsSafe(genesis: Block, inputs: seq<Input>)
    requires NewHashes(Start(genesis), inputs)
    ensures
      var t := Run(Start(genesis), inputs);
      && (forall n :: n in t.status && !Dead(t.status, n) ==> n.WorkSum() <= t.Tip().WorkSum())
      && StatusOk(t.status)
      && (forall h :: 0 <= h < |t.view| ==> t.view[h] in t.status && t.status[t.view[h]].valid && !Dead(t.status, t.view[h]))
      && t.db.best.workSum == t.Tip().WorkSum()
      && AllSound(Published(Start(genesis), inputs))
  {
    hide Sound;
    PublishedSound(Start(genesis), inputs);
    var t := Run(Start(genesis), inputs);
    forall h | 0 <= h < |t.view|
      ensures t.view[h] in t.status && t.status[t.view[h]].valid && !Dead(t.status, t.view[h])
    {
      MainChainValid(t, h);
    }
  }

  /** The work record of a published state is wrong if and only if the state was published when
      a block with work was taken off the main chain. */
  lemma RecordWrongExactly(genesis: Block, inputs: seq<Input>, i: nat)
    requires NewHashes(Start(genesis), inputs) && i < |Published(Start(genesis), inputs)|
    ensures
      var seen := [Start(genesis)] + Published(Start(genesis), inputs);
      && seen[i].view != [] && seen[i + 1].view != []
      && (seen[i + 1].db.best.workSum != seen[i + 1].Tip().WorkSum() <==> RemovesWork(seen[i].Tip(), seen[i + 1]))
  {
    hide Sound, RecordsExact, Inv, NewHashes, Published, Initial;
    PublishedSound(Start(genesis), inputs);
    RecordsAt(Start(genesis).Tip(), Published(Start(genesis), inputs), i);
  }
}
