/**
 What chain selection reports to its caller, blockchain/chain.go:1060-1068: "whether or
 not the block ended up on the main chain". The report is wrong in exactly one situation,
 shown here with a run that reaches it. A second run reaches a state whose persisted work
 is wrong. All blocks of the two runs carry work.
 */
module ChainReports {
  import opened Common
  import opened BlockTree
  import opened MedianTime
  import opened ChainState
  import opened ChainInvariants
  import opened ChainReorg
  import opened ChainRuns

  /** The report agrees with the outcome unless the block is on a side chain with more work
      than the tip that already has a known-invalid node above the fork point. */
  lemma ReportIsRight(s: Chain, n: BlockNode, fastAdd: bool, verdict: BlockNode -> bool)
    requires Ready(s, n) && Fork(s.view, n).Some?
    ensures
      var b := ConnectBestChain(s, n, fastAdd, verdict);
      (b.isMainChain == (b.step.chain.Tip() == n)) <==>
      (n.parent == s.Tip() || n.WorkSum() <= s.Tip().WorkSum() || CleanAbove(s, n, Fork(s.view, n).value.Height()))
  {
    hide Structure, StatusOk, Dead, ExtendMainChain, SwitchToSideChain, CleanAbove;
    NotInMainChain(s, n);
    ExtendsTip(s, n);
    if n.parent == s.Tip() {
      ExtendReport(s, n, fastAdd, verdict);
    } else if n.WorkSum() > s.Tip().WorkSum() {
      SwitchReport(s, n, verdict);
    }
  }

  lemma ExtendReport(s: Chain, n: BlockNode, fastAdd: bool, verdict: BlockNode -> bool)
    requires Ready(s, n) && n.parent == s.Tip() && !InView(s.view, n)
    ensures
      var b := ExtendMainChain(s, n, fastAdd, verdict);
      b.isMainChain == (b.step.chain.Tip() == n)
  {
    hide StatusOk, MostWork, Dead, Grew, ConnectBlock, Fork, TreeOk, RowsOk;
    if fastAdd {
      FastExtendSucceeds(s, n);
    } else if verdict(n) {
      ExtendSucceeds(s, n);
    } else {
      assert s.Tip() != n;
    }
  }

  lemma SwitchReport(s: Chain, n: BlockNode, verdict: BlockNode -> bool)
    requires Ready(s, n) && Fork(s.view, n).Some? && !InView(s.view, n)
    ensures
      var b := SwitchToSideChain(s, n, verdict);
      (b.isMainChain == (b.step.chain.Tip() == n)) <==> CleanAbove(s, n, Fork(s.view, n).value.Height())
  {
    hide StatusOk, Dead, Grew, Structure, SwitchAll, CheckAttach, UpFromInvalid, UpFrom;
    var k := Fork(s.view, n).value.Height();
    GetReorganizeNodesFrame(s, n);
    UpFromInvalidMeans(s, n, k);
    if CleanAbove(s, n, k) {
      CleanBranch(s, n, k);
      SwitchKeeps(s, n, verdict);
    }
  }

  /** Six blocks with distinct hashes: A and B1 on genesis, B2 and B3 on B1, and C on B2. */
  datatype Example = Example(g: Hash, a: Hash, b1: Hash, b2: Hash, b3: Hash, c: Hash)
  {
    predicate Distinct() {
      g != a && g != b1 && g != b2 && g != b3 && g != c && a != b1 && a != b2 && a != b3 && a != c &&
      b1 != b2 && b1 != b3 && b1 != c && b2 != b3 && b2 != c && b3 != c
    }

    function G(): BlockNode { Genesis(Block(g, g, 1, 0, 1)) }
    function A(): BlockNode { Child(Block(a, g, 3, 1, 1), G()) }
    function B1(): BlockNode { Child(Block(b1, g, 1, 1, 1), G()) }
    function B2(): BlockNode { Child(Block(b2, b1, 1, 2, 1), B1()) }
    function B3(): BlockNode { Child(Block(b3, b1, 5, 2, 1), B1()) }
    function C(): BlockNode { Child(Block(c, b2, 9, 3, 1), B2()) }

    /** Every connection check passes but that of B1. */
    function Verdict(): BlockNode -> bool { m => m != B1() }
    function Call(n: BlockNode): Input { Input(n.block, true, false, Verdict()) }

    /** Another block on genesis, with more work than A. */
    function D(): BlockNode { Child(Block(b3, g, 5, 1, 1), G()) }
  }

  /** The entry point may be called with this input. */
  ghost predicate Callable(s: Chain, i: Input)
    ensures Callable(s, i) ==> s.view != [] && (i.block.prevBlock in s.index ==> Fork(s.view, NewNode(s, i.block)).Some?)
  {
    && s.view != [] && i.block.hash !in s.index
    && (i.block.prevBlock in s.index ==> Fork(s.view, NewNode(s, i.block)).Some?)
  }

  ghost function Next(s: Chain, i: Input): Chain
    requires Callable(s, i)
  {
    MaybeAcceptBlock(s, i).step.chain
  }

  /** An admitted block is indexed and then goes through chain selection. */
  lemma AdmittedStep(s: Chain, i: Input)
    requires Callable(s, i) && Admitted(s, i) && Fork(s.view, NewNode(s, i.block)).Some?
    ensures
      var b, r := ConnectBestChain(Indexing(s, i.block), NewNode(s, i.block), i.fastAdd, i.verdict), MaybeAcceptBlock(s, i);
      && r.step.chain == b.step.chain && r.step.err == b.step.err && b.step.published <= r.step.published
      && (b.step.err == NoError ==> r.isMainChain == b.isMainChain)
  {
    hide ConnectBestChain, Fork;
  }

  /** The main chain is genesis and A, other known blocks have not been looked at, and
      the index is the given one. */
  ghost predicate AtA(x: Example, s: Chain, index: map<Hash, BlockNode>) {
    && Inv(s) && s.view == [x.G(), x.A()] && s.index == index
    && forall n :: n in s.status ==>
         if n == x.G() || n == x.A() then !s.status[n].KnownInvalid() else s.status[n] == DATA_STORED
  }

  function Index1(x: Example): map<Hash, BlockNode> { map[x.g := x.G(), x.a := x.A()] }
  function Index2(x: Example): map<Hash, BlockNode> { Index1(x)[x.b1 := x.B1()] }
  function Index3(x: Example): map<Hash, BlockNode> { Index2(x)[x.b2 := x.B2()] }
  function Index4(x: Example): map<Hash, BlockNode> { Index3(x)[x.b3 := x.B3()] }

  lemma ExtendWithA(x: Example, u: Chain)
    requires u.view == [x.G()] && x.A() in u.status && u.status[x.A()] == DATA_STORED
    ensures Fork(u.view, x.A()).Some?
    ensures
      var b := ConnectBestChain(u, x.A(), false, x.Verdict());
      && b.step.err == NoError && b.step.chain.view == [x.G(), x.A()] && b.step.chain.index == u.index
      && b.step.chain.status == u.status[x.A() := DATA_STORED.With(VALID)]
  {
    hide SwitchToSideChain;
    assert InView(u.view, x.G()) && !InView(u.view, x.A());
    assert Fork(u.view, x.G()) == Some(x.G());
    assert u.Tip() == x.G();
    assert x.A().Path() == [x.G(), x.A()];
  }

  lemma FirstStepState(x: Example)
    requires x.Distinct()
    ensures
      var s, i := Initial(x.G().block), x.Call(x.A());
      && Callable(s, i)
      && Next(s, i).index == Index1(x) && Next(s, i).view == [x.G(), x.A()]
      && forall n :: n in Next(s, i).status ==> (n == x.G() || n == x.A()) && !Next(s, i).status[n].KnownInvalid()
  {
    hide ConnectBestChain, Fork;
    var s := Initial(x.G().block);
    var u := Indexing(s, x.A().block);
    ExtendWithA(x, u);
    assert u.status == map[x.G() := DATA_STORED.With(VALID), x.A() := DATA_STORED];
  }

  /** The first block extends genesis. */
  lemma FirstStep(x: Example)
    requires x.Distinct()
    ensures Callable(Start(x.G().block), x.Call(x.A()))
    ensures AtA(x, Next(Start(x.G().block), x.Call(x.A())), Index1(x))
  {
    hide Inv, MaybeAcceptBlock, Index1;
    FirstStepState(x);
    AcceptKeeps(Start(x.G().block), x.Call(x.A()));
  }

  /** A block that forks off with no more work than A stays on its side chain. */
  lemma SideStep(x: Example, s: Chain, index: map<Hash, BlockNode>, n: BlockNode)
    requires AtA(x, s, index) && n.Child? && n.Hash() !in index
    requires n.block.prevBlock in index && NewNode(s, n.block) == n
    requires n.WorkSum() <= 4 && n.block.prevBlock != x.A().Hash() && n != x.A()
    ensures Callable(s, x.Call(n)) && AtA(x, Next(s, x.Call(n)), index[n.Hash() := n])
  {
    hide Inv, MaybeAcceptBlock, ConnectBestChain, Structure, StatusOk, Dead, Accepted, Fork;
    AcceptCallable(s, n.block);
    LookupKnown(s, n.block.prevBlock);
    AcceptKeeps(s, x.Call(n));
    AdmittedStep(s, x.Call(n));
    StaysAside(x, Indexing(s, n.block), n);
  }

  lemma StaysAside(x: Example, t: Chain, n: BlockNode)
    requires t.view == [x.G(), x.A()] && n.Child? && Fork(t.view, n).Some?
    requires n.WorkSum() <= 4 && n.block.prevBlock != x.A().Hash()
    ensures ConnectBestChain(t, n, false, x.Verdict()).step.chain == t
  {
    hide ExtendMainChain, SwitchToSideChain, Fork;
    assert t.Tip() == x.A() && x.A().WorkSum() == 4;
  }

  lemma SecondStep(x: Example, s: Chain)
    requires x.Distinct() && AtA(x, s, Index1(x))
    ensures Callable(s, x.Call(x.B1())) && AtA(x, Next(s, x.Call(x.B1())), Index2(x))
  {
    hide Inv, MaybeAcceptBlock, Next, Fork;
    assert x.B1().WorkSum() == 2;
    SideStep(x, s, Index1(x), x.B1());
  }

  lemma ThirdStep(x: Example, s: Chain)
    requires x.Distinct() && AtA(x, s, Index2(x))
    ensures Callable(s, x.Call(x.B2())) && AtA(x, Next(s, x.Call(x.B2())), Index3(x))
  {
    hide Inv, MaybeAcceptBlock, Next, Fork;
    assert x.B1().WorkSum() == 2;
    assert x.B2().WorkSum() == x.B1().WorkSum() + 1;
    SideStep(x, s, Index2(x), x.B2());
  }

  /** B3 has more work than A, but B1 below it fails: both are flagged, B2 is not. */
  lemma FailedSwitch(x: Example, t: Chain)
    requires x.Distinct()
    requires t.view == [x.G(), x.A()] && x.B1() in t.status && x.B3() in t.status
    requires forall n :: n in t.status && n != x.G() && n != x.A() ==> t.status[n] == DATA_STORED
    ensures Fork(t.view, x.B3()).Some?
    ensures SwitchToSideChain(t, x.B3(), x.Verdict()).step ==
      Step(t.SetFlags(x.B1(), VALIDATE_FAILED).SetFlags(x.B3(), INVALID_ANCESTOR).Flush(), RuleError, [])
  {
    assert x.A().Height() == 1 && x.B1().Height() == 1 && x.B3().Height() == 2;
    assert InView(t.view, x.G()) && !InView(t.view, x.B3()) && !InView(t.view, x.B1());
    assert Fork(t.view, x.B1()) == Some(x.G()) && Fork(t.view, x.B3()) == Some(x.G());
    assert UpFromInvalid(t, x.G(), 0) == (false, []);
    assert [] + [x.B1()] == [x.B1()] && [x.B1()] + [x.B3()] == [x.B1(), x.B3()];
    assert t.StatusOf(x.B1()) == DATA_STORED && t.StatusOf(x.B3()) == DATA_STORED;
    assert UpFromInvalid(t, x.B1(), 0) == (false, [x.B1()]);
    assert UpFromInvalid(t, x.B3(), 0) == (false, [x.B1(), x.B3()]);
    assert DownTo(x.A(), 0) == [x.A()];
    var attach := [x.B1(), x.B3()];
    assert GetReorganizeNodes(t, x.B3()) == Reorg(t, [x.A()], attach);
    var u := t.SetFlags(x.B1(), VALIDATE_FAILED);
    assert attach[1..] == [x.B3()];
    assert MarkAll(u, [x.B3()], INVALID_ANCESTOR) == u.SetFlags(x.B3(), INVALID_ANCESTOR);
    assert CheckAttach(t, attach, x.Verdict()) == Checked(u.SetFlags(x.B3(), INVALID_ANCESTOR), RuleError);
  }

  lemma SelectB3(x: Example, t: Chain)
    requires x.Distinct() && t.view == [x.G(), x.A()] && Fork(t.view, x.B3()).Some?
    ensures ConnectBestChain(t, x.B3(), false, x.Verdict()) == SwitchToSideChain(t, x.B3(), x.Verdict())
  {
    hide SwitchToSideChain, ExtendMainChain, Fork;
    assert t.Tip() == x.A() && x.A().WorkSum() == 4;
    assert x.B1().WorkSum() == 2;
    assert x.B3().WorkSum() == x.B1().WorkSum() + 5;
  }

  lemma KnownHere(x: Example, s: Chain)
    requires x.Distinct() && AtA(x, s, Index3(x))
    ensures x.B1() in s.status && x.B2() in s.status && s.status[x.B1()] == DATA_STORED
    ensures x.B3().Hash() !in s.index && x.b1 in s.index && s.index[x.b1] == x.B1()
  {
    hide Inv;
    LookupKnown(s, x.b1);
    LookupKnown(s, x.b2);
  }

  lemma FourthStepState(x: Example, s: Chain)
    requires x.Distinct() && AtA(x, s, Index3(x))
    ensures Callable(s, x.Call(x.B3())) && x.B1() in s.status && x.B2() in s.status
    ensures Next(s, x.Call(x.B3())) ==
      Indexing(s, x.B3().block).SetFlags(x.B1(), VALIDATE_FAILED).SetFlags(x.B3(), INVALID_ANCESTOR).Flush()
  {
    hide Inv, MaybeAcceptBlock, SwitchToSideChain, ConnectBestChain, Index3, Fork;
    KnownHere(x, s);
    AcceptCallable(s, x.B3().block);
    var t := Indexing(s, x.B3().block);
    assert NewNode(s, x.B3().block) == x.B3();
    AdmittedStep(s, x.Call(x.B3()));
    FailedSwitch(x, t);
    SelectB3(x, t);
  }

  /** The state after the failed switch. */
  ghost predicate AtB3(x: Example, s: Chain) {
    && Inv(s) && s.view == [x.G(), x.A()] && s.index == Index4(x)
    && s.StatusOf(x.B1()).validateFailed && !s.StatusOf(x.B2()).KnownInvalid()
  }

  lemma FourthStep(x: Example, s: Chain)
    requires x.Distinct() && AtA(x, s, Index3(x))
    ensures Callable(s, x.Call(x.B3())) && AtB3(x, Next(s, x.Call(x.B3())))
  {
    hide Inv, MaybeAcceptBlock, Index3, Fork;
    FourthStepState(x, s);
    AcceptKeeps(s, x.Call(x.B3()));
    assert s.index == Index3(x);
  }

  lemma ForkOfC(x: Example, view: seq<BlockNode>)
    requires x.Distinct() && view == [x.G(), x.A()]
    ensures Fork(view, x.C()) == Some(x.G()) && x.C().Height() == 3 && x.C().At(1) == x.B1()
  {
    assert x.B1().Height() == 1 && x.B2().Height() == 2;
    assert Fork(view, x.B1()) == Some(x.G());
    assert Fork(view, x.B2()) == Some(x.G());
    assert x.B1().At(1) == x.B1();
    assert x.B2().At(1) == x.B1();
  }

  /** C is reported to be on the main chain although the tip is still A. */
  lemma FifthStep(x: Example, s: Chain)
    requires x.Distinct() && AtB3(x, s)
    ensures Callable(s, x.Call(x.C()))
    ensures
      var b := MaybeAcceptBlock(s, x.Call(x.C()));
      b.isMainChain && b.step.err == NoError && b.step.chain.Tip() == s.Tip()
  {
    hide Inv, Ready, MaybeAcceptBlock, ConnectBestChain, Structure, StatusOk, Dead, Grew, Fork;
    AcceptCallable(s, x.C().block);
    LookupKnown(s, x.b1);
    AdmittedStep(s, x.Call(x.C()));
    IndexingReady(s, x.Call(x.C()));
    var t := Indexing(s, x.C().block);
    SelectionKeeps(t, x.C(), false, x.Verdict());
    ReportIsRight(t, x.C(), false, x.Verdict());
    ForkOfC(x, t.view);
    assert t.Tip() == x.A() && x.A().WorkSum() == 4 && x.B1().WorkSum() == 2 && x.B2().WorkSum() == 3 && x.C().WorkSum() == 12;
    assert !CleanAbove(t, x.C(), 0);
  }

  /** Putting one more input in front of a run. */
  lemma RunFrom(s: Chain, i: Input, rest: seq<Input>)
    requires Inv(s) && Callable(s, i) && Inv(Next(s, i)) && NewHashes(Next(s, i), rest)
    ensures NewHashes(s, [i] + rest) && Run(s, [i] + rest) == Run(Next(s, i), rest)
  {
    hide Inv, MaybeAcceptBlock, Accepted;
    assert ([i] + rest)[1..] == rest;
  }

  lemma AtAMeans(x: Example, s: Chain, index: map<Hash, BlockNode>)
    requires AtA(x, s, index)
    ensures Inv(s)
  {
  }

  /** A run from genesis after which the entry point reports a block as being on the main
      chain, with no error, while the tip has not moved. */
  lemma WrongReport(x: Example)
    requires x.Distinct()
    ensures
      var inputs := [x.Call(x.A())] + ([x.Call(x.B1())] + ([x.Call(x.B2())] + ([x.Call(x.B3())] + [])));
      && NewHashes(Start(x.G().block), inputs)
      && var s := Run(Start(x.G().block), inputs);
      && Callable(s, x.Call(x.C()))
      && var b := MaybeAcceptBlock(s, x.Call(x.C()));
      b.isMainChain && b.step.err == NoError && b.step.chain.Tip() == s.Tip()
  {
    hide Inv, MaybeAcceptBlock, AtA, Callable, Next, Index1, Index2, Index3;
    var s0 := Start(x.G().block);
    FirstStep(x);
    var s1 := Next(s0, x.Call(x.A()));
    AtAMeans(x, s1, Index1(x));
    SecondStep(x, s1);
    var s2 := Next(s1, x.Call(x.B1()));
    AtAMeans(x, s2, Index2(x));
    ThirdStep(x, s2);
    var s3 := Next(s2, x.Call(x.B2()));
    AtAMeans(x, s3, Index3(x));
    FourthStep(x, s3);
    var s4 := Next(s3, x.Call(x.B3()));
    FifthStep(x, s4);
    RunFrom(s3, x.Call(x.B3()), []);
    RunFrom(s2, x.Call(x.B2()), [x.Call(x.B3())] + []);
    RunFrom(s1, x.Call(x.B1()), [x.Call(x.B2())] + ([x.Call(x.B3())] + []));
    RunFrom(s0, x.Call(x.A()), [x.Call(x.B1())] + ([x.Call(x.B2())] + ([x.Call(x.B3())] + [])));
  }

  /** Switching from A to D: the first state published has taken A off. */
  lemma SwitchToD(x: Example, t: Chain)
    requires x.Distinct() && t.view == [x.G(), x.A()]
    requires x.D() in t.status && t.status[x.D()] == DATA_STORED && !t.StatusOf(x.G()).KnownInvalid()
    ensures Fork(t.view, x.D()).Some?
    ensures
      var published := SwitchToSideChain(t, x.D(), x.Verdict()).step.published;
      |published| > 0 && published[0].view == [x.G()] && published[0].db.best.workSum == x.A().WorkSum()
  {
    hide PastMedian, AttachAll;
    assert x.A().Height() == 1 && x.D().Height() == 1;
    assert InView(t.view, x.G()) && !InView(t.view, x.D());
    assert Fork(t.view, x.G()) == Some(x.G()) && Fork(t.view, x.D()) == Some(x.G());
    assert UpFromInvalid(t, x.G(), 0) == (false, []);
    assert [] + [x.D()] == [x.D()];
    assert UpFromInvalid(t, x.D(), 0) == (false, [x.D()]);
    assert DownTo(x.A(), 0) == [x.A()];
    var u := t.SetFlags(x.D(), VALID);
    assert GetReorganizeNodes(t, x.D()) == Reorg(t, [x.A()], [x.D()]);
    assert CheckAttach(t, [x.D()], x.Verdict()) == Checked(u, NoError);
    assert DetachAll(u, [x.A()]).published[0] == DisconnectBlock(u, x.A()).chain;
    assert x.G().Path() == [x.G()];
  }

  /** The step that submits D. */
  lemma StepD(x: Example, s: Chain)
    requires x.Distinct() && AtA(x, s, Index1(x))
    ensures Callable(s, x.Call(x.D())) && Inv(Next(s, x.Call(x.D())))
    ensures
      var published := MaybeAcceptBlock(s, x.Call(x.D())).step.published;
      |published| > 0 && published[0].view == [x.G()] && published[0].db.best.workSum == x.A().WorkSum()
  {
    hide Inv, MaybeAcceptBlock, SwitchToSideChain, ConnectBestChain, Fork;
    AcceptCallable(s, x.D().block);
    LookupKnown(s, x.g);
    var t := Indexing(s, x.D().block);
    AcceptKeeps(s, x.Call(x.D()));
    assert NewNode(s, x.D().block) == x.D();
    AdmittedStep(s, x.Call(x.D()));
    SwitchToD(x, t);
    SelectD(x, t);
  }

  lemma SelectD(x: Example, t: Chain)
    requires x.Distinct() && t.view == [x.G(), x.A()] && Fork(t.view, x.D()).Some?
    ensures ConnectBestChain(t, x.D(), false, x.Verdict()) == SwitchToSideChain(t, x.D(), x.Verdict())
  {
    hide SwitchToSideChain, ExtendMainChain, Fork;
    assert x.G().WorkSum() == 1;
    assert t.Tip() == x.A() && x.A().WorkSum() == 4 && x.D().WorkSum() == 6;
  }

  lemma PublishedFrom(s: Chain, i: Input, rest: seq<Input>)
    requires Inv(s) && Callable(s, i) && Inv(Next(s, i)) && NewHashes(Next(s, i), rest) && NewHashes(s, [i] + rest)
    ensures Published(s, [i] + rest) == MaybeAcceptBlock(s, i).step.published + Published(Next(s, i), rest)
  {
    hide Inv, MaybeAcceptBlock, NewHashes, Accepted;
    assert ([i] + rest)[1..] == rest;
  }

  /** The tip is genesis, but the persisted work is that of genesis and A. */
  ghost predicate RecordOfA(x: Example, s: Chain) {
    s.view == [x.G()] && s.db.best.workSum == 4 && s.Tip().WorkSum() == 1
  }

  lemma SeenAtD(x: Example, s: Chain) returns (p: Chain)
    requires x.Distinct() && AtA(x, s, Index1(x))
    ensures Callable(s, x.Call(x.D())) && Inv(Next(s, x.Call(x.D())))
    ensures p in MaybeAcceptBlock(s, x.Call(x.D())).step.published && RecordOfA(x, p)
  {
    hide Inv, MaybeAcceptBlock, AtA, Callable, Index1, Next, Fork;
    StepD(x, s);
    p := MaybeAcceptBlock(s, x.Call(x.D())).step.published[0];
    assert p.Tip() == x.G() && x.G().WorkSum() == 1 && x.A().WorkSum() == 4;
  }

  /** A state published by the second of two inputs is published by the run. */
  lemma TwoInputs(s: Chain, i: Input, t: Chain, j: Input, p: Chain)
    requires Inv(s) && Callable(s, i) && t == Next(s, i) && Inv(t)
    requires Callable(t, j) && Inv(Next(t, j)) && p in MaybeAcceptBlock(t, j).step.published
    ensures NewHashes(s, [i] + ([j] + [])) && p in Published(s, [i] + ([j] + []))
  {
    hide Inv, MaybeAcceptBlock, Callable, Next, Run, Accepted;
    assert NewHashes(Next(t, j), []);
    hide NewHashes, Published;
    RunFrom(t, j, []);
    PublishedFrom(t, j, []);
    RunFrom(s, i, [j] + []);
    PublishedFrom(s, i, [j] + []);
  }

  /** A run of two blocks, all with work, during which a state with a wrong work record is
      published: the tip is genesis, the record is that of the block taken off. */
  lemma WrongRecord(x: Example)
    requires x.Distinct()
    ensures
      var inputs := [x.Call(x.A())] + ([x.Call(x.D())] + []);
      && NewHashes(Start(x.G().block), inputs)
      && exists p :: p in Published(Start(x.G().block), inputs) && RecordOfA(x, p)
  {
    hide Inv, MaybeAcceptBlock, AtA, Callable, Next, Index1, NewHashes, Published, RecordOfA, Initial, Fork;
    var s := Start(x.G().block);
    FirstStep(x);
    var t := Next(s, x.Call(x.A()));
    AtAMeans(x, t, Index1(x));
    var p := SeenAtD(x, t);
    TwoInputs(s, x.Call(x.A()), t, x.Call(x.D()), p);
  }
}
