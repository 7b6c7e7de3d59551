/**
 A websocket client of rpcwebsocket.go keeps delivering: while it is connected, what its handler
 and its writer can do by themselves comes to an end only when everything queued is written.
 */
module NotificationProgress {
  import opened Common
  import opened NotificationQueues

  /** The steps of the handler and the writer while the connection works. */
  predicate Internal(s: Step) {
    s.TakeNotification? || s.TakeSent? || s.CheckDisconnected? || s.SendResponse? ||
    s.TakeResponse? || s.WriteOk? || s.ReportDone?
  }

  /** How far the messages for the writer still have to go. */
  function ResponsesLeft(rs: seq<Response>): nat {
    if rs == [] then 0 else (if rs[0].done then 4 else 2) + ResponsesLeft(rs[1..])
  }

  lemma {:induction false} ResponsesLeftAdd(rs: seq<Response>, r: Response)
    ensures ResponsesLeft(rs + [r]) == ResponsesLeft(rs) + if r.done then 4 else 2
  {
    if rs != [] {
      ResponsesLeftAdd(rs[1..], r);
      assert (rs + [r])[1..] == rs[1..] + [r];
    }
  }

  function HandlerLeft(h: Handler): nat {
    if h.Checking? then 6 else if h.Sending? then 5 else 0
  }

  function WriterLeft(w: Writer): nat {
    match w
    case Writing(r) => if r.done then 3 else 1
    case Reporting(_) => 2
    case _ => 0
  }

  /** How many internal steps there can still be. */
  function Left(c: Client): nat {
    8 * |c.ntfnChan| + 7 * |c.pending| + HandlerLeft(c.handler) + ResponsesLeft(c.sendChan) + WriterLeft(c.writer) + |c.sentChan|
  }

  /** Every internal step brings the end nearer, without losing or adding a notification. */
  lemma InternalStep(c: Client, s: Step)
    requires Inv(c) && !c.disconnected && Internal(s) && Next(c, s).Some?
    ensures
      var d := Next(c, s).value;
      Inv(d) && !d.disconnected && d.queued == c.queued && Left(d) < Left(c)
  {
    hide Inv;
    StepKeeps(c, s);
    if s.SendResponse? {
      ResponsesLeftAdd(c.sendChan, Response(c.handler.msg, true));
    }
  }

  /** When no internal step is possible, everything queued has been written. */
  lemma Quiescent(c: Client)
    requires Inv(c) && !c.disconnected && forall s: Step :: Internal(s) ==> Next(c, s).None?
    ensures c.written == c.queued
  {
    assert Internal(TakeNotification) && Internal(TakeSent) && Internal(CheckDisconnected) && Internal(SendResponse);
    assert Internal(TakeResponse) && Internal(WriteOk) && Internal(ReportDone);
    assert Next(c, WriteOk).None? && Next(c, ReportDone).None? && Next(c, TakeResponse).None?;
    assert c.writer == Waiting && c.sendChan == [];
    assert Next(c, CheckDisconnected).None? && Next(c, SendResponse).None?;
    assert c.handler == Selecting;
    assert Next(c, TakeNotification).None? && Next(c, TakeSent).None?;
    assert c.ntfnChan == [] && c.sentChan == [];
  }

  /** Internal steps that lead from one state to another. */
  ghost predicate Leads(c: Client, steps: seq<Step>, d: Client)
    decreases |steps|
  {
    if steps == [] then d == c
    else Internal(steps[0]) && Next(c, steps[0]).Some? && Leads(Next(c, steps[0]).value, steps[1..], d)
  }

  /** However the handler and the writer go on, there is a bound on their steps, and where they
      cannot go on everything is written. */
  lemma {:induction false} BoundedAndDelivered(c: Client, steps: seq<Step>, d: Client)
    requires Inv(c) && !c.disconnected && Leads(c, steps, d)
    ensures |steps| <= Left(c) && Inv(d) && !d.disconnected && d.queued == c.queued
    ensures (forall s: Step :: Internal(s) ==> Next(d, s).None?) ==> d.written == c.queued
    decreases |steps|
  {
    hide Inv, Next, Left;
    if steps == [] {
      if forall s: Step :: Internal(s) ==> Next(d, s).None? {
        Quiescent(d);
      }
    } else {
      InternalStep(c, steps[0]);
      BoundedAndDelivered(Next(c, steps[0]).value, steps[1..], d);
    }
  }

  /** From every connected state they can go on until everything is written. */
  lemma {:induction false} CanDeliver(c: Client) returns (steps: seq<Step>, d: Client)
    requires Inv(c) && !c.disconnected
    ensures Leads(c, steps, d) && d.written == c.queued
    decreases Left(c)
  {
    hide Inv, Next, Left;
    if s: Step :| Internal(s) && Next(c, s).Some? {
      InternalStep(c, s);
      var rest;
      rest, d := CanDeliver(Next(c, s).value);
      steps := [s] + rest;
      assert steps[1..] == rest;
    } else {
      Quiescent(c);
      steps, d := [], c;
    }
  }

  /** In every state of every run in which the client is connected, all that has been queued gets
      written by the handler and the writer alone, in whatever order they take their steps. */
  lemma EveryRunProgresses(states: seq<Client>, steps: seq<Step>, i: nat, next: seq<Step>, d: Client)
    requires Run(states, steps) && i < |states| && !states[i].disconnected && Leads(states[i], next, d)
    ensures |next| <= Left(states[i])
    ensures (forall s: Step :: Internal(s) ==> Next(d, s).None?) ==> d.written == states[i].queued
  {
    hide Inv, Next, Left, Leads;
    RunInv(states, steps, i);
    BoundedAndDelivered(states[i], next, d);
  }

  predicate OfHandler(s: Step) {
    s.TakeNotification? || s.TakeSent? || s.HandlerQuits? || s.CheckDisconnected? || s.SendResponse? ||
    s.ReportFailure? || s.DrainNotification? || s.DrainSent? || s.HandlerExits?
  }

  predicate OfWriter(s: Step) {
    s.TakeResponse? || s.WriteOk? || s.WriteFails? || s.WriterQuits? || s.ReportDone? || s.CleanResponse? || s.WriterExits?
  }

  /** After a disconnect the writer can go on until it is done, and so can the handler unless it
      has a message left for a channel that is full. */
  lemma ShutDown(c: Client)
    requires Inv(c) && c.disconnected
    ensures (exists s: Step :: OfWriter(s) && Next(c, s).Some?) <==> !c.writer.WriterDone?
    ensures (exists s: Step :: OfHandler(s) && Next(c, s).Some?) <==>
            !c.handler.HandlerDone? && !(c.handler.Sending? && |c.sendChan| == SEND_BUFFER_SIZE)
  {
    WriterStep(c);
    HandlerStep(c);
  }

  lemma WriterStep(c: Client)
    requires Inv(c) && c.disconnected
    ensures (exists s: Step :: OfWriter(s) && Next(c, s).Some?) <==> !c.writer.WriterDone?
  {
    hide InOrder, Line, Notifications;
    var s := match c.writer {
      case Waiting => WriterQuits
      case Writing(_) => WriteOk
      case Reporting(_) => ReportDone
      case Cleaning => if c.sendChan == [] then WriterExits else CleanResponse
      case WriterDone => WriterExits
    };
    assert OfWriter(s);
    assert Next(c, s).Some? <==> !c.writer.WriterDone?;
  }

  lemma HandlerStep(c: Client)
    requires Inv(c) && c.disconnected
    ensures (exists s: Step :: OfHandler(s) && Next(c, s).Some?) <==>
            !c.handler.HandlerDone? && !(c.handler.Sending? && |c.sendChan| == SEND_BUFFER_SIZE)
  {
    hide InOrder, Line, Notifications;
    var s := match c.handler {
      case Selecting => HandlerQuits
      case Checking(_) => CheckDisconnected
      case Sending(_) => SendResponse
      case Failing => ReportFailure
      case Draining => if c.ntfnChan != [] then DrainNotification else if c.sentChan != [] then DrainSent else HandlerExits
      case HandlerDone => HandlerExits
    };
    assert OfHandler(s);
    assert Next(c, s).Some? <==> !c.handler.HandlerDone? && !(c.handler.Sending? && |c.sendChan| == SEND_BUFFER_SIZE);
  }
}
