/** Validity flags and reorganizations: what the check phase and the switch keep. */
module ChainReorg {
  import opened BlockTree
  import opened ChainState
  import opened ChainInvariants
  import opened WorkRecords

  /** Some proper ancestor failed validation. */
  ghost predicate FailedBelow(status: map<BlockNode, Status>, n: BlockNode) {
    exists h: nat :: h < n.Height() && n.At(h) in status && status[n.At(h)].validateFailed
  }

  /** Known-valid is closed under ancestors and disjoint from known-invalid, and an
      invalid-ancestor flag is always owed to a proper ancestor that failed validation. */
  ghost predicate StatusOk(status: map<BlockNode, Status>) {
    && (forall n {:trigger ValidParent(status, n)} :: n in status && status[n].valid ==> ValidParent(status, n))
    && (forall n :: n in status ==> !(status[n].valid && status[n].KnownInvalid()))
    && (forall n :: n in status && status[n].invalidAncestor ==> FailedBelow(status, n))
  }

  /** The parent of a node, if any, is known valid. */
  ghost predicate ValidParent(status: map<BlockNode, Status>, n: BlockNode) {
    n.Child? ==> n.parent in status && status[n.parent].valid
  }

  /** The node or one of its ancestors is known to be invalid. */
  ghost predicate Dead(status: map<BlockNode, Status>, n: BlockNode) {
    exists h: nat :: h <= n.Height() && n.At(h) in status && status[n.At(h)].KnownInvalid()
  }

  /** Flags were only added. */
  ghost predicate Grew(before: map<BlockNode, Status>, after: map<BlockNode, Status>) {
    && after.Keys == before.Keys
    && forall n :: n in before ==> after[n] == before[n].With(after[n])
  }

  lemma GrewTransitive(a: map<BlockNode, Status>, b: map<BlockNode, Status>, c: map<BlockNode, Status>)
    requires Grew(a, b) && Grew(b, c)
    ensures Grew(a, c)
  {
  }

  lemma SetFlagsGrew(s: Chain, n: BlockNode, flags: Status)
    requires n in s.status
    ensures Grew(s.status, s.SetFlags(n, flags).status)
  {
  }

  lemma DeadStays(before: map<BlockNode, Status>, after: map<BlockNode, Status>, n: BlockNode)
    requires Grew(before, after) && Dead(before, n)
    ensures Dead(after, n)
  {
    var h: nat :| h <= n.Height() && n.At(h) in before && before[n.At(h)].KnownInvalid();
    assert after[n.At(h)].KnownInvalid();
  }

  lemma FailedBelowStays(before: map<BlockNode, Status>, after: map<BlockNode, Status>, n: BlockNode)
    requires Grew(before, after) && FailedBelow(before, n)
    ensures FailedBelow(after, n)
  {
    var h: nat :| h < n.Height() && n.At(h) in before && before[n.At(h)].validateFailed;
    assert after[n.At(h)].validateFailed;
  }

  /** All ancestors of a known-valid node are known valid. */
  lemma {:induction false} ValidDownwards(status: map<BlockNode, Status>, n: BlockNode, h: nat)
    requires StatusOk(status) && n in status && status[n].valid && h <= n.Height()
    ensures n.At(h) in status && status[n.At(h)].valid
  {
    if h < n.Height() {
      assert ValidParent(status, n);
      ValidDownwards(status, n.parent, h);
    }
  }

  lemma SetFlagsStructure(s: Chain, n: BlockNode, flags: Status)
    requires Structure(s) && n in s.status
    ensures Structure(s.SetFlags(n, flags))
  {
    var t := s.SetFlags(n, flags);
    assert t.status.Keys == s.status.Keys;
  }

  /** Marking a node keeps the status laws when the mark is justified. */
  lemma MarkKeeps(s: Chain, n: BlockNode, flags: Status)
    requires StatusOk(s.status) && n in s.status
    requires flags.valid ==> !s.status[n].KnownInvalid() && !flags.KnownInvalid() && (n.Child? ==> n.parent in s.status && s.status[n.parent].valid)
    requires flags.KnownInvalid() ==> !s.status[n].valid
    requires flags.invalidAncestor ==> FailedBelow(s.status, n)
    ensures StatusOk(s.SetFlags(n, flags).status)
  {
    var after := s.SetFlags(n, flags).status;
    SetFlagsGrew(s, n, flags);
    forall m | m in after && after[m].valid ensures ValidParent(after, m) {
      assert m != n ==> ValidParent(s.status, m);
      assert s.status[n].valid ==> ValidParent(s.status, n);
    }
    forall m | m in after && after[m].invalidAncestor
      ensures FailedBelow(after, m)
    {
      FailedBelowStays(s.status, after, m);
    }
  }

  lemma {:induction false} MarkAllKeeps(s: Chain, nodes: seq<BlockNode>)
    requires Structure(s) && StatusOk(s.status)
    requires forall n :: n in nodes ==> n in s.status && !s.status[n].valid && FailedBelow(s.status, n)
    ensures
      var t := MarkAll(s, nodes, INVALID_ANCESTOR);
      Structure(t) && StatusOk(t.status) && Grew(s.status, t.status)
    decreases |nodes|
  {
    hide Structure, StatusOk, FailedBelow;
    if nodes != [] {
      var u := s.SetFlags(nodes[0], INVALID_ANCESTOR);
      MarkKeeps(s, nodes[0], INVALID_ANCESTOR);
      SetFlagsStructure(s, nodes[0], INVALID_ANCESTOR);
      SetFlagsGrew(s, nodes[0], INVALID_ANCESTOR);
      forall n | n in nodes[1..]
        ensures n in u.status && !u.status[n].valid && FailedBelow(u.status, n)
      {
        assert n in nodes;
        FailedBelowStays(s.status, u.status, n);
      }
      MarkAllKeeps(u, nodes[1..]);
      GrewTransitive(s.status, u.status, MarkAll(u, nodes[1..], INVALID_ANCESTOR).status);
    }
  }

  /** Later nodes of a linked list have every earlier node as a proper ancestor. */
  lemma {:induction false} LinkedAncestors(p: BlockNode, nodes: seq<BlockNode>, i: nat)
    requires Linked(p, nodes) && i < |nodes|
    ensures nodes[i].Height() == p.Height() + 1 + i
    ensures forall j :: 0 <= j <= i ==> nodes[j].IsAncestorOf(nodes[i])
  {
    assert LinkAt(p, nodes, i);
    if i > 0 {
      LinkedAncestors(p, nodes, i - 1);
    }
  }

  /** Once a node has failed, the nodes linked after it may be marked for it. */
  lemma AfterFailed(s: Chain, p: BlockNode, attach: seq<BlockNode>, m: BlockNode)
    requires StatusOk(s.status) && Linked(p, attach) && attach != []
    requires forall n :: n in attach ==> n in s.status
    requires s.status[attach[0]].validateFailed && m in attach[1..]
    ensures m in s.status && !s.status[m].valid && FailedBelow(s.status, m)
  {
    var n := attach[0];
    var i :| 0 < i < |attach| && attach[i] == m;
    LinkedAncestors(p, attach, i);
    LinkedAncestors(p, attach, 0);
    assert n.IsAncestorOf(m) && n.Height() < m.Height();
    assert m.At(n.Height()) == n;
    if s.status[m].valid {
      ValidDownwards(s.status, m, n.Height());
      assert false;
    }
  }

  /** A failed check marks the failed node and everything after it. */
  lemma FailKeeps(s: Chain, p: BlockNode, attach: seq<BlockNode>)
    requires Structure(s) && StatusOk(s.status) && Linked(p, attach) && attach != []
    requires forall n :: n in attach ==> n in s.status
    requires !s.status[attach[0]].valid
    ensures
      var t := MarkAll(s.SetFlags(attach[0], VALIDATE_FAILED), attach[1..], INVALID_ANCESTOR);
      && Structure(t) && StatusOk(t.status) && Grew(s.status, t.status)
      && Dead(t.status, attach[|attach| - 1])
  {
    hide Structure, StatusOk, FailedBelow, Dead, MarkAll;
    var n := attach[0];
    var u := s.SetFlags(n, VALIDATE_FAILED);
    MarkKeeps(s, n, VALIDATE_FAILED);
    SetFlagsStructure(s, n, VALIDATE_FAILED);
    SetFlagsGrew(s, n, VALIDATE_FAILED);
    forall m | m in attach[1..]
      ensures m in u.status && !u.status[m].valid && FailedBelow(u.status, m)
    {
      AfterFailed(u, p, attach, m);
    }
    MarkAllKeeps(u, attach[1..]);
    var t := MarkAll(u, attach[1..], INVALID_ANCESTOR);
    GrewTransitive(s.status, u.status, t.status);
    LinkedAncestors(p, attach, |attach| - 1);
    DeadFrom(t.status, n, attach[|attach| - 1]);
  }

  lemma DeadFrom(status: map<BlockNode, Status>, a: BlockNode, n: BlockNode)
    requires a.IsAncestorOf(n) && a in status && status[a].KnownInvalid()
    ensures Dead(status, n)
  {
    assert n.At(a.Height()) == a;
  }

  /** Validation stopped at entry `i`: those before it are known valid, it has failed, and all
      after it are marked as having an invalid ancestor. */
  ghost predicate StoppedAt(status: map<BlockNode, Status>, attach: seq<BlockNode>, i: nat)
    ensures StoppedAt(status, attach, i) ==> i < |attach|
  {
    && i < |attach|
    && (forall j :: 0 <= j < |attach| ==> attach[j] in status)
    && (forall j :: 0 <= j < i ==> status[attach[j]].valid)
    && status[attach[i]].validateFailed
    && forall j :: i < j < |attach| ==> status[attach[j]].invalidAncestor
  }

  lemma StoppedLater(status: map<BlockNode, Status>, attach: seq<BlockNode>, i: nat)
    requires attach != [] && attach[0] in status && status[attach[0]].valid && StoppedAt(status, attach[1..], i)
    ensures StoppedAt(status, attach, i + 1)
  {
    var rest := attach[1..];
    assert forall j :: 0 < j < |attach| ==> attach[j] == rest[j - 1];
  }

  lemma {:induction false} MarkAllMarks(s: Chain, nodes: seq<BlockNode>, m: BlockNode)
    requires m in s.status && (s.status[m].invalidAncestor || m in nodes)
    ensures m in MarkAll(s, nodes, INVALID_ANCESTOR).status && MarkAll(s, nodes, INVALID_ANCESTOR).status[m].invalidAncestor
    decreases |nodes|
  {
    if nodes != [] {
      MarkAllMarks(s.SetFlags(nodes[0], INVALID_ANCESTOR), nodes[1..], m);
    }
  }

  /** The check phase keeps the status laws. It succeeds exactly when every node to attach is
      known valid or passes, and then all are known valid; otherwise the first that does not
      pass has failed, all after it are marked, and so the last one is dead. */
  lemma {:induction false} CheckKeeps(s: Chain, p: BlockNode, attach: seq<BlockNode>, verdict: BlockNode -> bool)
    requires Structure(s) && StatusOk(s.status) && Linked(p, attach)
    requires p in s.status && s.status[p].valid
    requires forall n :: n in attach ==> n in s.status && !s.status[n].KnownInvalid()
    ensures
      var c := CheckAttach(s, attach, verdict);
      && Structure(c.chain) && StatusOk(c.chain.status) && Grew(s.status, c.chain.status)
      && c.err != AssertError
      && (c.err == NoError ==> forall n :: n in attach ==> c.chain.status[n].valid)
      && (c.err == RuleError ==> attach != [] && Dead(c.chain.status, attach[|attach| - 1]))
    decreases |attach|
  {
    hide Structure, StatusOk, FailedBelow, Dead, MarkAll;
    if attach != [] {
      var n, rest := attach[0], attach[1..];
      assert forall m :: m in rest ==> m in attach;
      LinkedTail(p, attach);
      if s.status[n].valid {
        CheckKeeps(s, n, rest, verdict);
        CheckStaysValid(s, n, rest, verdict);
      } else if verdict(n) {
        var u := s.SetFlags(n, VALID);
        MarkKeeps(s, n, VALID);
        SetFlagsStructure(s, n, VALID);
        SetFlagsGrew(s, n, VALID);
        LinkedDistinct(p, attach);
        CheckKeeps(u, n, rest, verdict);
        CheckStaysValid(u, n, rest, verdict);
        GrewTransitive(s.status, u.status, CheckAttach(u, rest, verdict).chain.status);
      } else {
        FailKeeps(s, p, attach);
      }
      assert attach[|attach| - 1] == if rest == [] then n else rest[|rest| - 1];
    }
  }

  /** Which nodes pass decides the outcome, and a failure marks everything from it upwards. */
  lemma {:induction false} CheckMarks(s: Chain, p: BlockNode, attach: seq<BlockNode>, verdict: BlockNode -> bool)
    requires Structure(s) && StatusOk(s.status) && Linked(p, attach)
    requires p in s.status && s.status[p].valid
    requires forall n :: n in attach ==> n in s.status && !s.status[n].KnownInvalid()
    ensures
      var c := CheckAttach(s, attach, verdict);
      && (c.err == NoError <==> forall n :: n in attach ==> s.status[n].valid || verdict(n))
      && (c.err == RuleError ==> exists i: nat :: StoppedAt(c.chain.status, attach, i) && !verdict(attach[i]))
    decreases |attach|
  {
    hide Structure, StatusOk, MarkAll;
    if attach != [] {
      var n, rest := attach[0], attach[1..];
      assert forall m :: m in attach <==> m == n || m in rest;
      LinkedTail(p, attach);
      LinkedDistinct(p, attach);
      if s.status[n].valid {
        CheckMarks(s, n, rest, verdict);
        CheckMarksRest(s, p, attach, verdict);
      } else if verdict(n) {
        var u := s.SetFlags(n, VALID);
        MarkKeeps(s, n, VALID);
        SetFlagsStructure(s, n, VALID);
        CheckMarks(u, n, rest, verdict);
        CheckMarksRest(u, p, attach, verdict);
      } else {
        FailMarks(s, attach);
      }
    }
  }

  lemma CheckMarksRest(s: Chain, p: BlockNode, attach: seq<BlockNode>, verdict: BlockNode -> bool)
    requires Structure(s) && StatusOk(s.status) && Linked(p, attach) && attach != []
    requires attach[0] in s.status && s.status[attach[0]].valid
    requires forall n :: n in attach ==> n in s.status && !s.status[n].KnownInvalid()
    requires
      var c := CheckAttach(s, attach[1..], verdict);
      c.err == RuleError ==> exists i: nat :: StoppedAt(c.chain.status, attach[1..], i) && !verdict(attach[1..][i])
    ensures
      var c := CheckAttach(s, attach[1..], verdict);
      c.err == RuleError ==> exists i: nat :: StoppedAt(c.chain.status, attach, i) && !verdict(attach[i])
  {
    hide Structure, StatusOk, StoppedAt, CheckAttach;
    var rest := attach[1..];
    LinkedTail(p, attach);
    CheckKeeps(s, attach[0], rest, verdict);
    CheckStaysValid(s, attach[0], rest, verdict);
    var c := CheckAttach(s, rest, verdict);
    if c.err == RuleError {
      var i: nat :| StoppedAt(c.chain.status, rest, i) && !verdict(rest[i]);
      StoppedLater(c.chain.status, attach, i);
      assert attach[i + 1] == rest[i];
    }
  }

  lemma FailMarks(s: Chain, attach: seq<BlockNode>)
    requires attach != [] && forall n :: n in attach ==> n in s.status
    ensures StoppedAt(MarkAll(s.SetFlags(attach[0], VALIDATE_FAILED), attach[1..], INVALID_ANCESTOR).status, attach, 0)
  {
    var u := s.SetFlags(attach[0], VALIDATE_FAILED);
    var t := MarkAll(u, attach[1..], INVALID_ANCESTOR);
    MarkAllFailed(u, attach[1..], attach[0]);
    forall j | 0 < j < |attach| ensures attach[j] in t.status && t.status[attach[j]].invalidAncestor {
      assert attach[1..][j - 1] == attach[j];
      MarkAllMarks(u, attach[1..], attach[j]);
    }
  }

  lemma {:induction false} MarkAllFailed(s: Chain, nodes: seq<BlockNode>, m: BlockNode)
    requires m in s.status && s.status[m].validateFailed
    ensures m in MarkAll(s, nodes, INVALID_ANCESTOR).status && MarkAll(s, nodes, INVALID_ANCESTOR).status[m].validateFailed
    decreases |nodes|
  {
    if nodes != [] {
      MarkAllFailed(s.SetFlags(nodes[0], INVALID_ANCESTOR), nodes[1..], m);
    }
  }

  lemma LinkedDistinct(p: BlockNode, attach: seq<BlockNode>)
    requires Linked(p, attach) && attach != []
    ensures attach[0] !in attach[1..]
  {
    forall i | 0 < i < |attach| ensures attach[i] != attach[0] {
      LinkedAncestors(p, attach, i);
      LinkedAncestors(p, attach, 0);
    }
  }

  lemma CheckStaysValid(s: Chain, n: BlockNode, rest: seq<BlockNode>, verdict: BlockNode -> bool)
    requires n in s.status && s.status[n].valid
    requires Grew(s.status, CheckAttach(s, rest, verdict).chain.status)
    ensures CheckAttach(s, rest, verdict).chain.status[n].valid
  {
  }

  /** What is attached, entry by entry. */
  lemma {:induction false} UpFromAt(n: BlockNode, k: nat)
    requires k <= n.Height()
    ensures |UpFrom(n, k)| == n.Height() - k
    ensures forall i :: 0 <= i < n.Height() - k ==> UpFrom(n, k)[i] == n.At(k + 1 + i)
  {
    if k < n.Height() {
      UpFromAt(n.parent, k);
    }
  }

  lemma UpFromLinked(n: BlockNode, k: nat)
    requires k <= n.Height()
    ensures Linked(n.At(k), UpFrom(n, k))
  {
    UpFromAt(n, k);
    forall i | 0 <= i < |UpFrom(n, k)|
      ensures LinkAt(n.At(k), UpFrom(n, k), i)
    {
      AtParent(n, k + 1 + i);
    }
  }

  /** Walking down to the fork meets no known-invalid node and collects the whole branch,
      or stops at the topmost one and collects what is above it. */
  lemma {:induction false} UpFromInvalidMeans(s: Chain, n: BlockNode, k: nat)
    requires k <= n.Height()
    ensures
      var r := UpFromInvalid(s, n, k);
      if r.0 then
        exists h: nat :: k < h <= n.Height() && s.StatusOf(n.At(h)).KnownInvalid() && r.1 == UpFrom(n, h)
      else
        && r.1 == UpFrom(n, k)
        && forall h: nat :: k < h <= n.Height() ==> !s.StatusOf(n.At(h)).KnownInvalid()
  {
    if k < n.Height() {
      if s.StatusOf(n).KnownInvalid() {
        assert n.At(n.Height()) == n && UpFrom(n, n.Height()) == [];
      } else {
        UpFromInvalidMeans(s, n.parent, k);
        var r := UpFromInvalid(s, n.parent, k);
        if r.0 {
          var h: nat :| k < h <= n.parent.Height() && s.StatusOf(n.parent.At(h)).KnownInvalid() && r.1 == UpFrom(n.parent, h);
          assert n.At(h) == n.parent.At(h);
          assert UpFrom(n, h) == UpFrom(n.parent, h) + [n];
        }
      }
    }
  }

  /** No known block without a known-invalid node on its path has more work than the tip. */
  ghost predicate MostWork(s: Chain)
    requires s.view != []
  {
    forall n :: n in s.status && !Dead(s.status, n) ==> n.WorkSum() <= s.Tip().WorkSum()
  }

  /** What holds between steps. */
  ghost predicate Inv(s: Chain)
    ensures Inv(s) ==> Consistent(s)
  {
    && Consistent(s)
    && StatusOk(s.status)
    && s.status[s.Tip()].valid
    && MostWork(s)
    && RecordRight(s)
  }

  /** Every main-chain node is known valid, and none is dead. */
  lemma MainChainValid(s: Chain, h: nat)
    requires Structure(s) && StatusOk(s.status) && s.status[s.Tip()].valid && h < |s.view|
    ensures s.view[h] in s.status && s.status[s.view[h]].valid && !Dead(s.status, s.view[h])
  {
    PathAtAll(s.Tip());
    ValidDownwards(s.status, s.Tip(), h);
    var m := s.view[h];
    if k: nat :| k <= m.Height() && m.At(k) in s.status && s.status[m.At(k)].KnownInvalid() {
      ValidDownwards(s.status, m, k);
      assert false;
    }
  }

  /** What holds of every state that is visible while a step runs. */
  ghost predicate Sound(s: Chain)
    ensures Sound(s) ==> Consistent(s)
  {
    Consistent(s) && StatusOk(s.status) && !Dead(s.status, s.Tip())
  }

  ghost predicate AllSound(states: seq<Chain>) {
    forall s :: s in states ==> Sound(s)
  }

  lemma AllSoundConcat(a: seq<Chain>, b: seq<Chain>)
    requires AllSound(a) && AllSound(b)
    ensures AllSound(a + b)
  {
  }

  lemma InvSound(s: Chain)
    requires Inv(s)
    ensures Sound(s)
  {
    hide StatusOk, Dead, MostWork;
    MainChainValid(s, |s.view| - 1);
  }

  /** A node that is not itself known invalid, on top of a known-valid one, is not dead. */
  lemma NotDead(status: map<BlockNode, Status>, n: BlockNode)
    requires StatusOk(status) && n in status && !status[n].KnownInvalid() && ValidParent(status, n)
    ensures !Dead(status, n)
  {
    if h: nat :| h <= n.Height() && n.At(h) in status && status[n.At(h)].KnownInvalid() {
      if h < n.Height() {
        ValidDownwards(status, n.parent, h);
      }
      assert false;
    }
  }

  /** All states have the given statuses and a tip among the given nodes. */
  ghost predicate TipsAmong(states: seq<Chain>, status: map<BlockNode, Status>, tips: seq<BlockNode>) {
    forall s :: s in states ==> s.view != [] && s.status == status && s.Tip() in tips
  }

  lemma ValidTipsSound(states: seq<Chain>, status: map<BlockNode, Status>, tips: seq<BlockNode>)
    requires AllConsistent(states) && TipsAmong(states, status, tips) && StatusOk(status)
    requires forall n :: n in tips ==> n in status && status[n].valid
    ensures AllSound(states)
  {
    hide Consistent, StatusOk, Dead;
    forall s | s in states ensures Sound(s) {
      MainChainValid(s, |s.view| - 1);
    }
  }

  lemma {:induction false} DetachTips(s: Chain, k: nat)
    requires Structure(s) && k <= s.Tip().Height() && AllChildren(DownTo(s.Tip(), k))
    ensures TipsAmong(DetachAll(s, DownTo(s.Tip(), k)).published, s.status, s.Tip().Path())
    decreases s.Tip().Height()
  {
    hide Structure, DisconnectBlock;
    var t := s.Tip();
    if k < t.Height() {
      DisconnectKeeps(s, t);
      var d := DisconnectBlock(s, t).chain;
      assert DownTo(t, k)[1..] == DownTo(t.parent, k);
      DetachTips(d, k);
      assert t.Path() == t.parent.Path() + [t];
      assert t.parent.Path()[t.parent.Height()] == t.parent;
    }
  }

  lemma {:induction false} AttachTips(s: Chain, attach: seq<BlockNode>)
    requires Structure(s) && Linked(s.Tip(), attach)
    requires forall m :: m in attach ==> m in s.status
    ensures TipsAmong(AttachAll(s, attach).published, s.status, attach)
    decreases |attach|
  {
    hide Structure, ConnectBlock;
    if attach != [] {
      LinkedTail(s.Tip(), attach);
      ConnectKeeps(s, attach[0]);
      var c := ConnectBlock(s, attach[0]).chain;
      assert forall m :: m in attach[1..] ==> m in c.status;
      AttachTips(c, attach[1..]);
    }
  }

  /** The states visible during a switch between validated chains are sound. */
  lemma SwitchSound(s: Chain, k: nat, attach: seq<BlockNode>)
    requires Structure(s) && StatusOk(s.status) && s.status[s.Tip()].valid
    requires k <= s.Tip().Height() && AllChildren(DownTo(s.Tip(), k)) && Linked(s.Tip().At(k), attach)
    requires forall m :: m in attach ==> m in s.status && s.status[m].valid
    ensures AllSound(SwitchAll(s, DownTo(s.Tip(), k), attach).published)
  {
    hide Structure, StatusOk, DownTo, DetachAll, AttachAll;
    DetachKeeps(s, k);
    DetachTips(s, k);
    var d := DetachAll(s, DownTo(s.Tip(), k));
    AttachKeeps(d.chain, attach);
    AttachTips(d.chain, attach);
    forall n | n in s.Tip().Path() ensures n in s.status && s.status[n].valid {
      var h :| 0 <= h < |s.Tip().Path()| && s.Tip().Path()[h] == n;
      MainChainValid(s, h);
    }
    ValidTipsSound(d.published, s.status, s.Tip().Path());
    ValidTipsSound(AttachAll(d.chain, attach).published, s.status, attach);
    AllSoundConcat(d.published, AttachAll(d.chain, attach).published);
  }

  /** A freshly indexed node `n` is waiting for best-chain selection. */
  ghost predicate Ready(s: Chain, n: BlockNode)
    ensures Ready(s, n) ==> Consistent(s) && n in s.status && n.Child?
  {
    && Consistent(s)
    && StatusOk(s.status)
    && s.status[s.Tip()].valid
    && RecordRight(s)
    && n in s.status && n.Child? && s.status[n] == DATA_STORED
    && !s.StatusOf(n.parent).KnownInvalid()
    && forall m :: m in s.status && m != n && !Dead(s.status, m) ==> m.WorkSum() <= s.Tip().WorkSum()
  }

  lemma ForkKnown(s: Chain, n: BlockNode)
    requires Structure(s) && n in s.status
    ensures Fork(s.view, n).Some?
    ensures var f := Fork(s.view, n).value;
      f.Height() <= s.Tip().Height() && s.Tip().At(f.Height()) == f == n.At(f.Height())
  {
    AncestorsKnown(s.index, s.status.Keys, s.view[0], n, 0);
    ForkExists(s.view, n);
    PathAtAll(s.Tip());
  }

  /** What is detached, entry by entry. */
  lemma {:induction false} DownToAt(n: BlockNode, k: nat)
    requires k <= n.Height()
    ensures |DownTo(n, k)| == n.Height() - k
    ensures forall i :: 0 <= i < n.Height() - k ==> DownTo(n, k)[i] == n.At(n.Height() - i)
  {
    if k < n.Height() {
      DownToAt(n.parent, k);
    }
  }

  /** No node from just above height `k` up to `n` is known invalid. */
  ghost predicate CleanAbove(s: Chain, n: BlockNode, k: nat) {
    forall h: nat :: k < h <= n.Height() ==> !s.StatusOf(n.At(h)).KnownInvalid()
  }

  lemma CleanBranch(s: Chain, n: BlockNode, k: nat)
    requires k <= n.Height() && CleanAbove(s, n, k)
    ensures UpFromInvalid(s, n, k) == (false, UpFrom(n, k))
  {
    UpFromInvalidMeans(s, n, k);
  }

  /** With no known-invalid node between the fork point and `n`, the lists are exactly the
      main chain from the tip down to the fork point and the branch from there up to `n`. */
  lemma ReorganizeNodesExact(s: Chain, n: BlockNode)
    requires Structure(s) && n in s.status && n.Child? && !s.StatusOf(n.parent).KnownInvalid()
    requires Fork(s.view, n).Some? && CleanAbove(s, n, Fork(s.view, n).value.Height())
    ensures
      var k, g := Fork(s.view, n).value.Height(), GetReorganizeNodes(s, n);
      g.chain == s && IsReversedTail(g.detach, s.view, k) && IsTail(g.attach, n.Path(), k)
  {
    ForkKnown(s, n);
    var k := Fork(s.view, n).value.Height();
    CleanBranch(s, n, k);
    DetachedEntries(s.Tip(), k);
    AttachedEntries(n, k);
  }

  /** `list` is what follows entry `k` of a path, in reverse order. */
  ghost predicate IsReversedTail(list: seq<BlockNode>, path: seq<BlockNode>, k: nat) {
    |list| == |path| - 1 - k && forall i :: 0 <= i < |list| ==> list[i] == path[|path| - 1 - i]
  }

  /** `list` is what follows entry `k` of a path. */
  ghost predicate IsTail(list: seq<BlockNode>, path: seq<BlockNode>, k: nat) {
    k < |path| && list == path[k + 1..]
  }

  lemma DetachedEntries(t: BlockNode, k: nat)
    requires k <= t.Height()
    ensures IsReversedTail(DownTo(t, k), t.Path(), k)
  {
    DownToAt(t, k);
    PathAtAll(t);
  }

  lemma AttachedEntries(n: BlockNode, k: nat)
    requires k <= n.Height()
    ensures IsTail(UpFrom(n, k), n.Path(), k)
  {
    UpFromAt(n, k);
    PathAtAll(n);
  }

  /** A branch with a known-invalid node is only marked, and its last node is dead. */
  lemma InvalidBranchKeeps(s: Chain, n: BlockNode, k: nat)
    requires Ready(s, n) && k <= n.Height() && UpFromInvalid(s, n, k).0
    ensures
      var t := MarkAll(s, UpFromInvalid(s, n, k).1, INVALID_ANCESTOR);
      Structure(t) && StatusOk(t.status) && Grew(s.status, t.status) && Dead(t.status, n)
  {
    hide StatusOk, FailedBelow, Grew, UpFrom, UpFromInvalid, ViewOk, TreeOk, RowsOk, MarkAll;
    UpFromInvalidMeans(s, n, k);
    var h: nat :| k < h <= n.Height() && s.StatusOf(n.At(h)).KnownInvalid() && UpFromInvalid(s, n, k).1 == UpFrom(n, h);
    forall m | m in UpFrom(n, h)
      ensures m in s.status && !s.status[m].valid && FailedBelow(s.status, m)
    {
      AboveInvalid(s, n, h, m);
    }
    MarkAllKeeps(s, UpFrom(n, h));
    assert Dead(s.status, n);
    DeadStays(s.status, MarkAll(s, UpFrom(n, h), INVALID_ANCESTOR).status, n);
  }

  lemma AboveInvalid(s: Chain, n: BlockNode, h: nat, m: BlockNode)
    requires Structure(s) && StatusOk(s.status) && n in s.status && h <= n.Height()
    requires s.StatusOf(n.At(h)).KnownInvalid() && m in UpFrom(n, h)
    ensures m in s.status && !s.status[m].valid && FailedBelow(s.status, m)
  {
    hide Structure, StatusOk, FailedBelow, UpFrom;
    UpFromAt(n, h);
    var i :| 0 <= i < |UpFrom(n, h)| && UpFrom(n, h)[i] == m;
    BelowInvalid(s, n, h, h + 1 + i);
  }

  /** A node above a known-invalid one is not known valid and has a failed proper ancestor. */
  lemma BelowInvalid(s: Chain, n: BlockNode, h: nat, j: nat)
    requires Structure(s) && StatusOk(s.status) && n in s.status && h < j <= n.Height()
    requires s.StatusOf(n.At(h)).KnownInvalid()
    ensures n.At(j) in s.status && !s.status[n.At(j)].valid && FailedBelow(s.status, n.At(j))
  {
    var m, bad := n.At(j), n.At(h);
    AncestorsKnown(s.index, s.status.Keys, s.view[0], n, j);
    AncestorsKnown(s.index, s.status.Keys, s.view[0], n, h);
    AtAt(n, j, h);
    if s.status[m].valid {
      ValidDownwards(s.status, m, h);
      assert false;
    }
    if s.status[bad].validateFailed {
      assert m.At(h) == bad;
    } else {
      var i: nat :| i < bad.Height() && bad.At(i) in s.status && s.status[bad.At(i)].validateFailed;
      AtAt(n, h, i);
      AtAt(n, j, i);
      assert m.At(i) == bad.At(i);
    }
  }

  /** The nodes to attach when nothing between the fork point and `n` is known invalid. */
  lemma AttachReady(s: Chain, n: BlockNode, k: nat)
    requires Structure(s) && n in s.status && k <= n.Height() && !UpFromInvalid(s, n, k).0
    ensures UpFromInvalid(s, n, k).1 == UpFrom(n, k) && Linked(n.At(k), UpFrom(n, k))
    ensures forall m :: m in UpFrom(n, k) ==> m in s.status && !s.status[m].KnownInvalid()
    ensures k < n.Height() ==> UpFrom(n, k) != [] && UpFrom(n, k)[|UpFrom(n, k)| - 1] == n
  {
    UpFromInvalidMeans(s, n, k);
    UpFromLinked(n, k);
    UpFromAt(n, k);
    forall m | m in UpFrom(n, k)
      ensures m in s.status && !s.status[m].KnownInvalid()
    {
      var i :| 0 <= i < |UpFrom(n, k)| && UpFrom(n, k)[i] == m;
      AncestorsKnown(s.index, s.status.Keys, s.view[0], n, k + 1 + i);
    }
  }

  /** The mutation phase, once everything to attach is known valid. */
  lemma MutationKeeps(s: Chain, k: nat, attach: seq<BlockNode>)
    requires Structure(s) && StatusOk(s.status) && s.status[s.Tip()].valid
    requires k <= s.Tip().Height() && AllChildren(DownTo(s.Tip(), k)) && Linked(s.Tip().At(k), attach) && attach != []
    requires forall m :: m in attach ==> m in s.status && s.status[m].valid
    ensures
      var r := SwitchAll(s, DownTo(s.Tip(), k), attach);
      && r.err == NoError && AllSound(r.published) && RecordsExact(s.Tip(), r.published)
      && Structure(r.chain) && r.chain.status == s.status && r.chain.index == s.index
      && r.chain.Tip() == attach[|attach| - 1] == LastTip(s.Tip(), r.published) && RecordRight(r.chain)
  {
    hide Structure, StatusOk, DownTo, DetachAll, AttachAll, Sound, RecordsExact, RecordRight, LastTip;
    SwitchSound(s, k, attach);
    SwitchRecords(s, k, attach);
    DetachKeeps(s, k);
    AttachKeeps(DetachAll(s, DownTo(s.Tip(), k)).chain, attach);
  }

  lemma NoRecords(prev: BlockNode)
    ensures RecordsExact(prev, [])
  {
  }

  /** A valid branch is attached: on success `n` is the tip, and a rule failure leaves
      everything but flags alone. None of the assertion errors can occur. */
  lemma SwitchKeeps(s: Chain, n: BlockNode, verdict: BlockNode -> bool)
    requires Ready(s, n) && Fork(s.view, n).Some?
    requires !UpFromInvalid(s, n, Fork(s.view, n).value.Height()).0 && !InView(s.view, n)
    requires AllChildren(GetReorganizeNodes(s, n).detach) && AllChildren(GetReorganizeNodes(s, n).attach)
    ensures
      var g := GetReorganizeNodes(s, n);
      var r := ReorganizeChain(s, g.detach, g.attach, verdict);
      && g.chain == s
      && AllSound(r.published) && RecordsExact(s.Tip(), r.published) && Structure(r.chain) && StatusOk(r.chain.status)
      && Grew(s.status, r.chain.status) && r.err != AssertError && r.chain.index == s.index
      && (r.err == NoError ==>
            r.chain.Tip() == n && r.chain.status[n].valid && LastTip(s.Tip(), r.published) == n && RecordRight(r.chain))
      && (r.err == RuleError ==> SameButFlags(s, r.chain) && r.published == [] && Dead(r.chain.status, n))
      && g.attach == UpFrom(n, Fork(s.view, n).value.Height())
      && (r.err == NoError <==> CheckAttach(s, g.attach, verdict).err == NoError)
      && (r.err == RuleError ==> r.chain == CheckAttach(s, g.attach, verdict).chain)
  {
    hide StatusOk, TreeOk, RowsOk, Dead, CheckAttach, SwitchAll, UpFrom, DownTo, Sound, RecordsExact, RecordRight, LastTip;
    ForkKnown(s, n);
    var f := Fork(s.view, n).value;
    var k, t := f.Height(), s.Tip();
    var attach := UpFrom(n, k);
    AttachReady(s, n, k);
    MainChainValid(s, k);
    BranchClosed(s.view, f, k);
    ListsMatchHere(s, f, n);
    CheckKeeps(s, f, attach, verdict);
    CheckAttachFrame(s, attach, verdict);
    var c := CheckAttach(s, attach, verdict);
    if c.err == NoError {
      MutationKeeps(c.chain, k, attach);
    } else {
      NoRecords(t);
    }
  }

  lemma ListsMatchHere(s: Chain, f: BlockNode, n: BlockNode)
    requires Structure(s) && f.IsAncestorOf(s.Tip()) && f.IsAncestorOf(n) && f != n
    requires AllChildren(DownTo(s.Tip(), f.Height())) && AllChildren(UpFrom(n, f.Height()))
    ensures UpFrom(n, f.Height()) != []
    ensures ListsMatch(s, DownTo(s.Tip(), f.Height()), UpFrom(n, f.Height()))
  {
    hide DownTo, UpFrom, TreeOk, RowsOk;
    var k, t := f.Height(), s.Tip();
    DownToAt(t, k);
    UpFromAt(n, k);
    AtParent(n, k + 1);
    if k < t.Height() {
      AtParent(t, k + 1);
      assert DownTo(t, k)[t.Height() - k - 1] == t.At(k + 1);
    }
    assert UpFrom(n, k)[0] == n.At(k + 1);
  }
}
