/**
 What becomes of a submitted block, stated from its parent, its work, the flags on its branch and
 the verdicts of the checks, without the steps that decide it.
 */
module ChainOutcomes {
  import opened Common
  import opened BlockTree
  import opened ChainState
  import opened ChainInvariants
  import opened ChainReorg
  import opened ChainRuns

  /** Every block from just above height `k` up to `n` is known valid or passes its check. */
  ghost predicate BranchPasses(s: Chain, n: BlockNode, k: nat, verdict: BlockNode -> bool) {
    forall h: nat :: k < h <= n.Height() ==> s.StatusOf(n.At(h)).valid || verdict(n.At(h))
  }

  /** The block at height `h` of the branch of `n` is the lowest that does not pass: it has failed,
      those below it down to the fork at `k` are valid, and all above it are marked. */
  ghost predicate FailsAt(status: map<BlockNode, Status>, n: BlockNode, k: nat, h: nat)
    ensures FailsAt(status, n, k, h) ==> k < h <= n.Height()
  {
    && k < h <= n.Height()
    && (forall j: nat :: k < j <= n.Height() ==> n.At(j) in status)
    && (forall j: nat :: k < j < h ==> status[n.At(j)].valid)
    && status[n.At(h)].validateFailed
    && forall j: nat :: h < j <= n.Height() ==> status[n.At(j)].invalidAncestor
  }

  lemma PassesInList(s: Chain, n: BlockNode, k: nat, verdict: BlockNode -> bool)
    requires k <= n.Height() && forall m :: m in UpFrom(n, k) ==> m in s.status
    ensures BranchPasses(s, n, k, verdict) <==> forall m :: m in UpFrom(n, k) ==> s.status[m].valid || verdict(m)
  {
    UpFromAt(n, k);
    var list := UpFrom(n, k);
    hide UpFrom;
    if forall m :: m in list ==> s.status[m].valid || verdict(m) {
      forall h: nat | k < h <= n.Height() ensures s.StatusOf(n.At(h)).valid || verdict(n.At(h)) {
        assert list[h - k - 1] == n.At(h);
      }
    }
    if BranchPasses(s, n, k, verdict) {
      forall m | m in list ensures s.status[m].valid || verdict(m) {
        var i :| 0 <= i < |list| && list[i] == m;
        assert n.At(k + 1 + i) == m;
      }
    }
  }

  lemma FailsInList(status: map<BlockNode, Status>, n: BlockNode, k: nat, i: nat)
    requires k <= n.Height() && StoppedAt(status, UpFrom(n, k), i)
    ensures FailsAt(status, n, k, k + 1 + i) && UpFrom(n, k)[i] == n.At(k + 1 + i)
  {
    UpFromAt(n, k);
    var list := UpFrom(n, k);
    hide UpFrom;
    assert forall j: nat :: k < j <= n.Height() ==> n.At(j) == list[j - k - 1];
  }

  /** The check phase on the branch of `n` above the main-chain block at height `k`. */
  lemma CheckOutcome(s: Chain, n: BlockNode, k: nat, verdict: BlockNode -> bool)
    requires Structure(s) && StatusOk(s.status) && n in s.status && k <= n.Height() && CleanAbove(s, n, k)
    requires n.At(k) in s.status && s.status[n.At(k)].valid
    ensures
      var c := CheckAttach(s, UpFrom(n, k), verdict);
      && (c.err == NoError <==> BranchPasses(s, n, k, verdict))
      && (c.err != NoError ==> exists h: nat :: FailsAt(c.chain.status, n, k, h) && !verdict(n.At(h)))
  {
    hide Structure, StatusOk, UpFrom, CheckAttach, StoppedAt, BranchPasses, FailsAt, CleanAbove;
    CleanBranch(s, n, k);
    AttachReady(s, n, k);
    CheckMarks(s, n.At(k), UpFrom(n, k), verdict);
    CheckKeeps(s, n.At(k), UpFrom(n, k), verdict);
    PassesInList(s, n, k, verdict);
    var c := CheckAttach(s, UpFrom(n, k), verdict);
    if c.err == RuleError {
      var i: nat :| StoppedAt(c.chain.status, UpFrom(n, k), i) && !verdict(UpFrom(n, k)[i]);
      FailsInList(c.chain.status, n, k, i);
    }
  }

  lemma ForkValid(s: Chain, n: BlockNode)
    requires Ready(s, n) && Fork(s.view, n).Some?
    ensures
      var k := Fork(s.view, n).value.Height();
      k <= n.Height() && n.At(k) in s.status && s.status[n.At(k)].valid && !InView(s.view, n)
  {
    hide Structure, StatusOk, Dead;
    NotInMainChain(s, n);
    ForkKnown(s, n);
    var f := Fork(s.view, n).value;
    MainChainValid(s, f.Height());
    BranchClosed(s.view, f, f.Height());
  }

  /** A switch to a clean branch does what its check phase says. */
  lemma CleanSwitch(s: Chain, n: BlockNode, verdict: BlockNode -> bool)
    requires Ready(s, n) && Fork(s.view, n).Some? && CleanAbove(s, n, Fork(s.view, n).value.Height())
    ensures
      var b, c := SwitchToSideChain(s, n, verdict), CheckAttach(s, UpFrom(n, Fork(s.view, n).value.Height()), verdict);
      && (b.step.err == NoError <==> c.err == NoError) && b.step.err != AssertError
      && (b.step.chain.Tip() == n <==> c.err == NoError)
      && (c.err != NoError ==> b.step.chain.status == c.chain.status)
  {
    hide Structure, StatusOk, Dead, UpFrom, CheckAttach, ReorganizeChain, GetReorganizeNodes, Fork, CleanAbove, Grew, AllSound;
    var k := Fork(s.view, n).value.Height();
    ForkValid(s, n);
    CleanBranch(s, n, k);
    GetReorganizeNodesFrame(s, n);
    SwitchKeeps(s, n, verdict);
    assert s.Tip() != n;
  }

  /** A switch to a branch that is not known to be invalid succeeds exactly when each of its
      blocks is known valid or passes; otherwise the lowest that does not pass has failed and
      everything above it is marked. */
  lemma SwitchOutcome(s: Chain, n: BlockNode, verdict: BlockNode -> bool)
    requires Ready(s, n) && Fork(s.view, n).Some? && CleanAbove(s, n, Fork(s.view, n).value.Height())
    ensures
      var k, b := Fork(s.view, n).value.Height(), SwitchToSideChain(s, n, verdict);
      && (b.step.chain.Tip() == n <==> BranchPasses(s, n, k, verdict))
      && (b.step.err == NoError <==> BranchPasses(s, n, k, verdict)) && b.step.err != AssertError
      && (b.step.err == RuleError ==> exists h: nat :: FailsAt(b.step.chain.status, n, k, h) && !verdict(n.At(h)))
  {
    hide Structure, StatusOk, Dead, UpFrom, CheckAttach, SwitchToSideChain, BranchPasses, FailsAt, Fork, CleanAbove;
    ForkValid(s, n);
    CleanSwitch(s, n, verdict);
    CheckOutcome(s, n, Fork(s.view, n).value.Height(), verdict);
  }

  /** Walking down from `n`, the first known-invalid block met is the one at height `h`. */
  ghost predicate TopmostInvalid(s: Chain, n: BlockNode, k: nat, h: nat) {
    && k < h <= n.Height() && s.StatusOf(n.At(h)).KnownInvalid()
    && forall j: nat :: h < j <= n.Height() ==> !s.StatusOf(n.At(j)).KnownInvalid()
  }

  lemma {:induction false} StopsAtTopmost(s: Chain, n: BlockNode, k: nat, h: nat)
    requires TopmostInvalid(s, n, k, h)
    ensures UpFromInvalid(s, n, k) == (true, UpFrom(n, h))
  {
    assert n.At(n.Height()) == n;
    if h < n.Height() {
      assert n.At(h) == n.parent.At(h);
      forall j: nat | h < j <= n.parent.Height() ensures !s.StatusOf(n.parent.At(j)).KnownInvalid() {
        assert n.At(j) == n.parent.At(j);
      }
      StopsAtTopmost(s, n.parent, k, h);
    }
  }

  lemma {:induction false} MarkAllExact(s: Chain, nodes: seq<BlockNode>, m: BlockNode)
    requires (forall x :: x in nodes ==> x in s.status) && m in s.status
    ensures
      var t := MarkAll(s, nodes, INVALID_ANCESTOR);
      m in t.status && t.status[m] == if m in nodes then s.status[m].With(INVALID_ANCESTOR) else s.status[m]
    decreases |nodes|
  {
    if nodes != [] {
      var u := s.SetFlags(nodes[0], INVALID_ANCESTOR);
      assert forall x :: x in nodes[1..] ==> x in u.status;
      MarkAllExact(u, nodes[1..], m);
    }
  }

  /** The statuses after a branch has been found to be invalid at height `h`: exactly the blocks
      of the branch of `n` above it are marked. */
  ghost predicate MarkedAbove(before: map<BlockNode, Status>, after: map<BlockNode, Status>, n: BlockNode, h: nat) {
    && after.Keys == before.Keys
    && forall m :: m in before ==>
         after[m] == if m.IsAncestorOf(n) && m.Height() > h then before[m].With(INVALID_ANCESTOR) else before[m]
  }

  lemma InList(n: BlockNode, h: nat, m: BlockNode)
    requires h <= n.Height()
    ensures m in UpFrom(n, h) <==> m.IsAncestorOf(n) && m.Height() > h
  {
    UpFromAt(n, h);
    var list := UpFrom(n, h);
    hide UpFrom;
    if m in list {
      var i :| 0 <= i < |list| && list[i] == m;
      assert n.At(h + 1 + i) == m;
    }
    if m.IsAncestorOf(n) && m.Height() > h {
      assert list[m.Height() - h - 1] == m;
    }
  }

  lemma MarkedExactly(s: Chain, n: BlockNode, h: nat)
    requires Structure(s) && n in s.status && h <= n.Height()
    ensures MarkedAbove(s.status, MarkAll(s, UpFrom(n, h), INVALID_ANCESTOR).status, n, h)
  {
    hide Structure, BlockNode.IsAncestorOf, UpFrom, MarkAll;
    var t := MarkAll(s, UpFrom(n, h), INVALID_ANCESTOR);
    forall m | m in UpFrom(n, h) ensures m in s.status {
      InList(n, h, m);
      AncestorKnown(s, n, m);
    }
    MarkAllKeys(s, UpFrom(n, h));
    forall m | m in s.status
      ensures t.status[m] == if m.IsAncestorOf(n) && m.Height() > h then s.status[m].With(INVALID_ANCESTOR) else s.status[m]
    {
      InList(n, h, m);
      MarkAllExact(s, UpFrom(n, h), m);
    }
  }

  lemma AncestorKnown(s: Chain, n: BlockNode, m: BlockNode)
    requires Structure(s) && n in s.status && m.IsAncestorOf(n)
    ensures m in s.status
  {
    AncestorsKnown(s.index, s.status.Keys, s.view[0], n, m.Height());
  }

  lemma {:induction false} MarkAllKeys(s: Chain, nodes: seq<BlockNode>)
    requires forall x :: x in nodes ==> x in s.status
    ensures MarkAll(s, nodes, INVALID_ANCESTOR).status.Keys == s.status.Keys
    decreases |nodes|
  {
    if nodes != [] {
      var u := s.SetFlags(nodes[0], INVALID_ANCESTOR);
      assert u.status.Keys == s.status.Keys;
      assert forall x :: x in nodes[1..] ==> x in u.status;
      MarkAllKeys(u, nodes[1..]);
    }
  }

  /** A branch with a known-invalid block is not attached: the main chain stays, nothing is
      published, and exactly the blocks above the topmost known-invalid one are marked. */
  lemma InvalidBranchOutcome(s: Chain, n: BlockNode, verdict: BlockNode -> bool, h: nat)
    requires Ready(s, n) && Fork(s.view, n).Some? && TopmostInvalid(s, n, Fork(s.view, n).value.Height(), h)
    ensures
      var b := SwitchToSideChain(s, n, verdict);
      && b.step.err == NoError && b.isMainChain && b.step.published == [] && SameMainChain(s, b.step.chain)
      && MarkedAbove(s.status, b.step.chain.status, n, h)
  {
    hide Structure, StatusOk, Dead, UpFrom, MarkAll, MarkedAbove, TopmostInvalid, Fork;
    var k := Fork(s.view, n).value.Height();
    StopsAtTopmost(s, n, k, h);
    TopmostBelow(s, n, k, h);
    MarkedExactly(s, n, h);
    MarkAllFrame(s, UpFrom(n, h), INVALID_ANCESTOR);
  }

  lemma TopmostBelow(s: Chain, n: BlockNode, k: nat, h: nat)
    requires TopmostInvalid(s, n, k, h)
    ensures k < h <= n.Height()
  {
  }

  /** The new block is connected: on top of the tip it is fast-added or passes; elsewhere it has
      more work than the tip, no known-invalid block above the fork, and its whole branch passes. */
  ghost predicate TakesOver(s: Chain, n: BlockNode, fastAdd: bool, verdict: BlockNode -> bool)
    requires s.view != [] && n.Child? && Fork(s.view, n).Some?
  {
    var k := Fork(s.view, n).value.Height();
    if n.parent == s.Tip() then fastAdd || verdict(n)
    else n.WorkSum() > s.Tip().WorkSum() && CleanAbove(s, n, k) && BranchPasses(s, n, k, verdict)
  }

  /** A connection check was made and did not pass. */
  ghost predicate FailsCheck(s: Chain, n: BlockNode, fastAdd: bool, verdict: BlockNode -> bool)
    requires s.view != [] && n.Child? && Fork(s.view, n).Some?
  {
    var k := Fork(s.view, n).value.Height();
    if n.parent == s.Tip() then !fastAdd && !verdict(n)
    else n.WorkSum() > s.Tip().WorkSum() && CleanAbove(s, n, k) && !BranchPasses(s, n, k, verdict)
  }

  /** The block has the most work but a known-invalid block on its branch: it is left aside and
      yet reported as being on the main chain. */
  ghost predicate Misreported(s: Chain, n: BlockNode)
    requires s.view != [] && n.Child? && Fork(s.view, n).Some?
  {
    n.parent != s.Tip() && n.WorkSum() > s.Tip().WorkSum() && !CleanAbove(s, n, Fork(s.view, n).value.Height())
  }

  lemma InvalidSomewhere(s: Chain, n: BlockNode, k: nat) returns (h: nat)
    requires k <= n.Height() && !CleanAbove(s, n, k)
    ensures TopmostInvalid(s, n, k, h)
  {
    h := n.Height();
    while h > k && !s.StatusOf(n.At(h)).KnownInvalid()
      invariant k <= h <= n.Height()
      invariant forall j: nat :: h < j <= n.Height() ==> !s.StatusOf(n.At(j)).KnownInvalid()
    {
      h := h - 1;
    }
  }

  /** Chain selection for a ready node. */
  lemma SelectionOutcome(s: Chain, n: BlockNode, fastAdd: bool, verdict: BlockNode -> bool)
    requires Ready(s, n) && Fork(s.view, n).Some?
    ensures
      var b := ConnectBestChain(s, n, fastAdd, verdict);
      && (b.step.chain.Tip() == n <==> TakesOver(s, n, fastAdd, verdict))
      && (b.step.err == RuleError <==> FailsCheck(s, n, fastAdd, verdict))
      && (b.isMainChain <==> TakesOver(s, n, fastAdd, verdict) || Misreported(s, n))
  {
    hide Structure, StatusOk, Dead, ExtendMainChain, SwitchToSideChain, BranchPasses, CleanAbove, Fork, Selected, TopmostInvalid, FailsAt, MarkedAbove;
    ExtendsTip(s, n);
    ForkValid(s, n);
    assert s.Tip() != n;
    var k := Fork(s.view, n).value.Height();
    if n.parent == s.Tip() {
      ExtendSelected(s, n, fastAdd, verdict);
      SelectedReport(s, n, ExtendMainChain(s, n, fastAdd, verdict));
    } else if n.WorkSum() > s.Tip().WorkSum() {
      if CleanAbove(s, n, k) {
        SwitchOutcome(s, n, verdict);
        SwitchReported(s, n, verdict);
      } else {
        var h := InvalidSomewhere(s, n, k);
        InvalidBranchOutcome(s, n, verdict, h);
      }
    }
  }

  lemma SelectedReport(s: Chain, n: BlockNode, b: Best)
    requires Selected(s, n, b)
    ensures (b.step.chain.Tip() == n ==> b.isMainChain) && (b.step.err == RuleError ==> !b.isMainChain)
  {
  }

  lemma SwitchReported(s: Chain, n: BlockNode, verdict: BlockNode -> bool)
    requires s.view != [] && n.Child? && Fork(s.view, n).Some?
    ensures var b := SwitchToSideChain(s, n, verdict); b.isMainChain == (b.step.err == NoError)
  {
    hide GetReorganizeNodes, ReorganizeChain;
  }

  /** Indexing the block changes none of the conditions. */
  lemma SameConditions(s: Chain, t: Chain, n: BlockNode, fastAdd: bool, verdict: BlockNode -> bool)
    requires s.view != [] && n.Child? && Fork(s.view, n).Some?
    requires t.view == s.view && n !in s.status && t.status == s.status[n := DATA_STORED]
    ensures TakesOver(t, n, fastAdd, verdict) == TakesOver(s, n, fastAdd, verdict)
    ensures FailsCheck(t, n, fastAdd, verdict) == FailsCheck(s, n, fastAdd, verdict)
    ensures Misreported(t, n) == Misreported(s, n)
  {
    hide Fork, BlockNode.At;
    var k := Fork(s.view, n).value.Height();
    assert forall m :: t.StatusOf(m).valid == s.StatusOf(m).valid && t.StatusOf(m).KnownInvalid() == s.StatusOf(m).KnownInvalid();
    assert CleanAbove(t, n, k) == CleanAbove(s, n, k);
    assert BranchPasses(t, n, k, verdict) == BranchPasses(s, n, k, verdict);
  }

  lemma FailureIsReported(s: Chain, n: BlockNode, fastAdd: bool, verdict: BlockNode -> bool)
    requires s.view != [] && n.Child? && Fork(s.view, n).Some? && FailsCheck(s, n, fastAdd, verdict)
    ensures !TakesOver(s, n, fastAdd, verdict) && !Misreported(s, n)
  {
  }

  /** What one submission does. A block whose parent is unknown or known invalid, or whose
      contextual checks fail, is refused and leaves no trace. Any other is indexed; it becomes the
      tip exactly when it takes over, and an error is returned exactly when a connection check
      fails. */
  ghost predicate Decided(s: Chain, i: Input, t: Chain, err: Error, isMainChain: bool) {
    var prev := i.block.prevBlock;
    if prev !in s.index || s.StatusOf(s.index[prev]).KnownInvalid() || !i.contextOk then
      t == s && err == RuleError && !isMainChain
    else
      var n := Child(i.block, s.index[prev]);
      && s.view != [] && t.view != [] && Fork(s.view, n).Some?
      && t.index == s.index[i.block.hash := n]
      && t.Tip() == (if TakesOver(s, n, i.fastAdd, i.verdict) then n else s.Tip())
      && err == (if FailsCheck(s, n, i.fastAdd, i.verdict) then RuleError else NoError)
      && (isMainChain <==> TakesOver(s, n, i.fastAdd, i.verdict) || Misreported(s, n))
  }

  /** This is what a submission does; a refused block is not announced, and without an error the
      state left behind is announced last. */
  lemma AcceptOutcome(s: Chain, i: Input)
    requires Inv(s) && i.block.hash !in s.index
    ensures
      var b := Accept(s, i);
      && Decided(s, i, b.step.chain, b.step.err, b.isMainChain)
      && (b.step.err == NoError ==> b.step.published != [] && b.step.published[|b.step.published| - 1] == b.step.chain)
      && (i.block.hash !in b.step.chain.index ==> b.step.published == [])
  {
    hide Inv, Decided, Accept, Accepted;
    if Admitted(s, i) {
      AdmittedOutcome(s, i);
    } else {
      RefusedOutcome(s, i);
    }
  }

  lemma RefusedOutcome(s: Chain, i: Input)
    requires Inv(s) && i.block.hash !in s.index && !Admitted(s, i)
    ensures
      var b := Accept(s, i);
      && Decided(s, i, b.step.chain, b.step.err, b.isMainChain) && b.step.err == RuleError && b.step.published == []
  {
    hide Inv, Accepted, Fork, TakesOver, FailsCheck, Misreported, ConnectBestChain;
    AcceptKeeps(s, i);
  }

  lemma AdmittedOutcome(s: Chain, i: Input)
    requires Inv(s) && i.block.hash !in s.index && Admitted(s, i)
    ensures
      var b := Accept(s, i);
      && Decided(s, i, b.step.chain, b.step.err, b.isMainChain) && i.block.hash in b.step.chain.index
      && (b.step.err == NoError ==> b.step.published != [] && b.step.published[|b.step.published| - 1] == b.step.chain)
  {
    hide Inv, Ready, Structure, StatusOk, Dead, ConnectBestChain, TakesOver, FailsCheck, Misreported, Fork, AllSound, Grew;
    AcceptKeeps(s, i);
    var n, t := NewNode(s, i.block), Indexing(s, i.block);
    IndexingReady(s, i);
    SelectionKeeps(t, n, i.fastAdd, i.verdict);
    SelectionOutcome(t, n, i.fastAdd, i.verdict);
    SameConditions(s, t, n, i.fastAdd, i.verdict);
    if FailsCheck(s, n, i.fastAdd, i.verdict) {
      FailureIsReported(s, n, i.fastAdd, i.verdict);
    }
  }

  /** The assertions of connecting and disconnecting: only a child of the tip is connected, only
      the tip is disconnected, and anything else is refused without effect. */
  lemma AssertionsExact(s: Chain, n: BlockNode)
    requires Structure(s) && n in s.status && n.Child?
    ensures ConnectBlock(s, n).err == if n.parent == s.Tip() then NoError else AssertError
    ensures DisconnectBlock(s, n).err == if n == s.Tip() then NoError else AssertError
    ensures n.parent != s.Tip() ==> ConnectBlock(s, n) == Step(s, AssertError, [])
    ensures n != s.Tip() ==> DisconnectBlock(s, n) == Step(s, AssertError, [])
  {
    ExtendsTip(s, n);
    LookupKnown(s, n.Hash());
  }
}
