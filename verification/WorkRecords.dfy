/**
 The work sum in the persisted best state, blockchain/chain.go:557-788. A disconnect stores
 the sum of the block it removes; what that means for the states visible during a run.
 */
module WorkRecords {
  import opened BlockTree
  import opened ChainState
  import opened ChainInvariants

  /** The persisted work sum is that of the tip. */
  ghost predicate RecordRight(s: Chain)
    requires s.view != []
  {
    s.db.best.workSum == s.Tip().WorkSum()
  }

  /** Going from the tip `prev` to this state took a block with work off the main chain. */
  ghost predicate RemovesWork(prev: BlockNode, s: Chain)
    requires s.view != []
  {
    prev.Child? && prev.parent == s.Tip() && prev.block.work > 0
  }

  /** Of states seen one after the other, starting at tip `prev`, exactly those have a wrong
      record that were reached by removing a block with work. */
  ghost predicate RecordsExact(prev: BlockNode, states: seq<Chain>)
    decreases |states|
  {
    states == [] ||
    (&& states[0].view != []
     && (RecordRight(states[0]) <==> !RemovesWork(prev, states[0]))
     && RecordsExact(states[0].Tip(), states[1..]))
  }

  /** The tip of the last state, or `prev` if there is none. */
  function LastTip(prev: BlockNode, states: seq<Chain>): BlockNode
    decreases |states|
  {
    if states == [] || states[0].view == [] then prev else LastTip(states[0].Tip(), states[1..])
  }

  lemma {:induction false} RecordsConcat(prev: BlockNode, a: seq<Chain>, b: seq<Chain>)
    requires RecordsExact(prev, a) && RecordsExact(LastTip(prev, a), b)
    ensures RecordsExact(prev, a + b) && LastTip(prev, a + b) == LastTip(LastTip(prev, a), b)
    decreases |a|
  {
    if a == [] {
      assert a + b == b;
    } else {
      assert (a + b)[1..] == a[1..] + b;
      RecordsConcat(a[0].Tip(), a[1..], b);
    }
  }

  /** State by state. */
  lemma {:induction false} RecordsAt(prev: BlockNode, states: seq<Chain>, i: nat)
    requires RecordsExact(prev, states) && i < |states|
    ensures states[i].view != [] && (i > 0 ==> states[i - 1].view != [])
    ensures RecordRight(states[i]) <==> !RemovesWork(if i == 0 then prev else states[i - 1].Tip(), states[i])
    decreases |states|
  {
    if i > 0 {
      RecordsAt(states[0].Tip(), states[1..], i - 1);
    }
  }

  lemma OneRecord(prev: BlockNode, s: Chain)
    requires s.view != [] && (RecordRight(s) <==> !RemovesWork(prev, s))
    ensures RecordsExact(prev, [s]) && LastTip(prev, [s]) == s.Tip()
  {
    assert [s][1..] == [];
  }

  lemma DisconnectRecord(s: Chain, n: BlockNode)
    requires Structure(s) && n == s.Tip() && n.Child?
    ensures
      var d := DisconnectBlock(s, n).chain;
      d.Tip() == n.parent && (RecordRight(d) <==> !RemovesWork(n, d))
  {
    hide Structure;
    DisconnectKeeps(s, n);
  }

  lemma ConnectRecord(s: Chain, n: BlockNode)
    requires Structure(s) && n in s.status && n.Child? && n.parent == s.Tip()
    ensures
      var c := ConnectBlock(s, n).chain;
      c.Tip() == n && RecordRight(c) && !RemovesWork(s.Tip(), c)
  {
    hide Structure;
    ConnectKeeps(s, n);
    ExtendsTip(s, n);
  }

  /** Detaching: every state has the record of the block just removed. */
  lemma {:induction false} DetachRecords(s: Chain, k: nat)
    requires Structure(s) && k <= s.Tip().Height()
    requires AllChildren(DownTo(s.Tip(), k))
    ensures
      var d := DetachAll(s, DownTo(s.Tip(), k));
      RecordsExact(s.Tip(), d.published) && LastTip(s.Tip(), d.published) == s.Tip().At(k)
    decreases s.Tip().Height()
  {
    hide Structure, DisconnectBlock, RecordRight, RemovesWork;
    var t := s.Tip();
    if k < t.Height() {
      DisconnectKeeps(s, t);
      DisconnectRecord(s, t);
      var d := DisconnectBlock(s, t).chain;
      assert DownTo(t, k)[1..] == DownTo(t.parent, k);
      DetachRecords(d, k);
      OneRecord(t, d);
      RecordsConcat(t, [d], DetachAll(d, DownTo(t.parent, k)).published);
    }
  }

  /** Attaching: every state has the right record. */
  lemma {:induction false} AttachRecords(s: Chain, attach: seq<BlockNode>)
    requires Structure(s) && Linked(s.Tip(), attach)
    requires forall m :: m in attach ==> m in s.status
    ensures
      var a := AttachAll(s, attach);
      && RecordsExact(s.Tip(), a.published) && LastTip(s.Tip(), a.published) == a.chain.Tip()
      && (attach != [] ==> RecordRight(a.chain))
    decreases |attach|
  {
    hide Structure, ConnectBlock, RecordRight, RemovesWork;
    if attach != [] {
      LinkedTail(s.Tip(), attach);
      ConnectKeeps(s, attach[0]);
      ConnectRecord(s, attach[0]);
      var c := ConnectBlock(s, attach[0]).chain;
      assert forall m :: m in attach[1..] ==> m in c.status;
      AttachRecords(c, attach[1..]);
      OneRecord(s.Tip(), c);
      RecordsConcat(s.Tip(), [c], AttachAll(c, attach[1..]).published);
    }
  }

  /** A whole switch, down to the fork and up again. */
  lemma SwitchRecords(s: Chain, k: nat, attach: seq<BlockNode>)
    requires Structure(s) && k <= s.Tip().Height() && AllChildren(DownTo(s.Tip(), k))
    requires attach != [] && Linked(s.Tip().At(k), attach)
    requires forall m :: m in attach ==> m in s.status
    ensures
      var r := SwitchAll(s, DownTo(s.Tip(), k), attach);
      RecordsExact(s.Tip(), r.published) && LastTip(s.Tip(), r.published) == r.chain.Tip() && RecordRight(r.chain)
  {
    hide Structure, DownTo, DetachAll, AttachAll, RecordsExact, RecordRight;
    DetachKeeps(s, k);
    DetachRecords(s, k);
    var d := DetachAll(s, DownTo(s.Tip(), k));
    AttachKeeps(d.chain, attach);
    AttachRecords(d.chain, attach);
    RecordsConcat(s.Tip(), d.published, AttachAll(d.chain, attach).published);
  }
}
