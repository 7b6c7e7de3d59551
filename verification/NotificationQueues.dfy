/**
 The notification queues of rpcwebsocket.go: the manager's `queueHandler`, and the protocol
 between a client's `notificationQueueHandler`, its `outHandler`, `SendMessage` and a
 disconnect, as steps that may interleave in any way.
 */
module NotificationQueues {
  import opened Common

  type Message = seq<byte>

  /** What the select of `queueHandler` may meet. A send to a reader that is not there, or to a
      nil channel, is not ready and is passed over. */
  datatype Event = Input(n: Message, readerReady: bool) | ReaderTakes | InputClosed | Quit

  /** The messages read before the handler stops. */
  function Received(events: seq<Event>): seq<Message> {
    if events == [] || events[0].InputClosed? || events[0].Quit? then []
    else (if events[0].Input? then [events[0].n] else []) + Received(events[1..])
  }

  /** How many messages are waiting in the end, starting with `n`: one more for every message
      that finds others waiting or no reader, one less whenever a reader takes one. */
  function Backlog(events: seq<Event>, n: nat): nat {
    if events == [] || events[0].InputClosed? || events[0].Quit? then n
    else if events[0].Input? then Backlog(events[1..], if n == 0 && events[0].readerReady then 0 else n + 1)
    else Backlog(events[1..], if n == 0 then 0 else n - 1)
  }

  lemma OneMore(events: seq<Event>, i: nat, n: nat)
    requires i < |events| && (events[i].Input? || events[i].ReaderTakes?)
    ensures Received(events[i..]) == (if events[i].Input? then [events[i].n] else []) + Received(events[i + 1..])
    ensures Backlog(events[i..], n) == Backlog(events[i + 1..],
              if events[i].Input? then if n == 0 && events[i].readerReady then 0 else n + 1 else if n == 0 then 0 else n - 1)
  {
    assert events[i..][1..] == events[i + 1..];
  }

  lemma NoMore(events: seq<Event>, i: nat, n: nat)
    requires i <= |events| && (i < |events| ==> events[i].InputClosed? || events[i].Quit?)
    ensures Received(events[i..]) == [] && Backlog(events[i..], n) == n
  {
  }

  /** Reads messages and passes them on: whatever the readers do, what has been sent followed by
      what is still queued is what was read, and no message waits that a reader could have had. */
  method QueueHandler(events: seq<Event>) returns (sent: seq<Message>, q: seq<Message>)
    ensures sent + q == Received(events)
    ensures |q| == Backlog(events, 0)
  {
    hide Received, Backlog;
    q, sent := [], [];
    var dequeue, skipQueue, next := false, true, None;
    var i := 0;
    assert events[0..] == events;
    while i < |events| && !events[i].InputClosed? && !events[i].Quit?
      invariant 0 <= i <= |events|
      invariant Received(events) == sent + (q + Received(events[i..]))
      invariant Backlog(events, 0) == Backlog(events[i..], |q|)
      invariant dequeue == (q != []) && skipQueue == (q == []) && (q != [] ==> next == Some(q[0]))
    {
      OneMore(events, i, |q|);
      match events[i] {
        case Input(n, readerReady) =>
          if skipQueue && readerReady {
            sent := sent + [n];
          } else {
            q := q + [n];
            dequeue, skipQueue, next := true, false, Some(q[0]);
          }
        case ReaderTakes =>
          if dequeue {
            assert q == [q[0]] + q[1..];
            sent := sent + [next.value];
            q := q[1..];
            if q == [] {
              dequeue, skipQueue := false, true;
            } else {
              next := Some(q[0]);
            }
          }
      }
      i := i + 1;
    }
    NoMore(events, i, |q|);
  }

  const SEND_BUFFER_SIZE: nat := 50

  /** A message for the writer; `done` tells whether the notification handler waits for it. */
  datatype Response = Response(msg: Message, done: bool)

  /** Where the notification handler is: in its select, inside `SendMessage` before and after the
      test for a disconnect, reporting a failure to itself, or cleaning up. */
  datatype Handler = Selecting | Checking(msg: Message) | Sending(msg: Message) | Failing | Draining | HandlerDone

  /** Where the writer is. */
  datatype Writer = Waiting | Writing(r: Response) | Reporting(ok: bool) | Cleaning | WriterDone

  /** A client: its channels, its two goroutines, what has been queued and written, and whether
      the write of a notification has failed, which is never reported. */
  datatype Client = Client(
    disconnected: bool,
    ntfnChan: seq<Message>,
    sendChan: seq<Response>,
    sentChan: seq<bool>,
    handler: Handler,
    pending: seq<Message>,
    waiting: bool,
    writer: Writer,
    queued: seq<Message>,
    written: seq<Message>,
    unreported: bool)

  function Start(): Client {
    Client(false, [], [], [], Selecting, [], false, Waiting, [], [], false)
  }

  datatype Step =
    | QueueNotification(msg: Message)
    | OtherMessage(msg: Message)
    | Disconnect
    | TakeNotification
    | TakeSent
    | HandlerQuits
    | CheckDisconnected
    | SendResponse
    | ReportFailure
    | DrainNotification
    | DrainSent
    | HandlerExits
    | TakeResponse
    | WriteOk
    | WriteFails
    | WriterQuits
    | ReportDone
    | CleanResponse
    | WriterExits

  /** The state after a step, if the step is possible: a send on a full channel and a receive on
      an empty one are not. */
  function Next(c: Client, s: Step): Option<Client> {
    match s
    case QueueNotification(m) =>
      if |c.ntfnChan| >= 1 then None else Some(c.(ntfnChan := c.ntfnChan + [m], queued := c.queued + [m]))
    case OtherMessage(m) =>
      if |c.sendChan| >= SEND_BUFFER_SIZE then None else Some(c.(sendChan := c.sendChan + [Response(m, false)]))
    case Disconnect => Some(c.(disconnected := true))
    case TakeNotification | TakeSent | HandlerQuits => Select(c, s)
    case CheckDisconnected | SendResponse | ReportFailure => InSendMessage(c, s)
    case DrainNotification | DrainSent | HandlerExits => Drain(c, s)
    case TakeResponse | WriteOk | WriteFails | WriterQuits | ReportDone | CleanResponse | WriterExits => Write(c, s)
  }

  /** The select of `notificationQueueHandler`. */
  function Select(c: Client, s: Step): Option<Client> {
    if c.handler != Selecting then None
    else
      match s
      case TakeNotification =>
        if c.ntfnChan == [] then None
        else if c.waiting then Some(c.(ntfnChan := c.ntfnChan[1..], pending := c.pending + [c.ntfnChan[0]]))
        else Some(c.(ntfnChan := c.ntfnChan[1..], handler := Checking(c.ntfnChan[0]), waiting := true))
      case TakeSent =>
        if c.sentChan == [] then None
        else if c.pending == [] then Some(c.(sentChan := c.sentChan[1..], waiting := false))
        else Some(c.(sentChan := c.sentChan[1..], handler := Checking(c.pending[0]), pending := c.pending[1..]))
      case _ => if c.disconnected then Some(c.(handler := Draining)) else None
  }

  /** `SendMessage` as the notification handler calls it. */
  function InSendMessage(c: Client, s: Step): Option<Client> {
    match s
    case CheckDisconnected =>
      if !c.handler.Checking? then None
      else Some(c.(handler := if c.disconnected then Failing else Sending(c.handler.msg)))
    case SendResponse =>
      if !c.handler.Sending? || |c.sendChan| >= SEND_BUFFER_SIZE then None
      else Some(c.(sendChan := c.sendChan + [Response(c.handler.msg, true)], handler := Selecting))
    case _ =>
      if c.handler != Failing || |c.sentChan| >= 1 then None
      else Some(c.(sentChan := c.sentChan + [false], handler := Selecting))
  }

  /** The cleanup of `notificationQueueHandler`. */
  function Drain(c: Client, s: Step): Option<Client> {
    if c.handler != Draining then None
    else
      match s
      case DrainNotification => if c.ntfnChan == [] then None else Some(c.(ntfnChan := c.ntfnChan[1..]))
      case DrainSent => if c.sentChan == [] then None else Some(c.(sentChan := c.sentChan[1..]))
      case _ => if c.ntfnChan == [] && c.sentChan == [] then Some(c.(handler := HandlerDone)) else None
  }

  /** `outHandler`. After a failed write nothing is reported for the message. */
  function Write(c: Client, s: Step): Option<Client> {
    match s
    case TakeResponse =>
      if c.writer != Waiting || c.sendChan == [] then None
      else Some(c.(sendChan := c.sendChan[1..], writer := Writing(c.sendChan[0])))
    case WriteOk =>
      if !c.writer.Writing? then None
      else if c.writer.r.done then Some(c.(writer := Reporting(true), written := c.written + [c.writer.r.msg]))
      else Some(c.(writer := Waiting))
    case WriteFails =>
      if !c.writer.Writing? then None else Some(c.(disconnected := true, writer := Cleaning, unreported := c.unreported || c.writer.r.done))
    case WriterQuits =>
      if c.writer != Waiting || !c.disconnected then None else Some(c.(writer := Cleaning))
    case ReportDone =>
      if !c.writer.Reporting? || |c.sentChan| >= 1 then None
      else Some(c.(sentChan := c.sentChan + [c.writer.ok], writer := if c.writer.ok then Waiting else Cleaning))
    case CleanResponse =>
      if c.writer != Cleaning || c.sendChan == [] then None
      else Some(c.(sendChan := c.sendChan[1..], writer := if c.sendChan[0].done then Reporting(false) else Cleaning))
    case _ =>
      if c.writer != Cleaning || c.sendChan != [] then None else Some(c.(writer := WriterDone))
  }

  /** The notifications among the messages for the writer. */
  function Notifications(rs: seq<Response>): seq<Message> {
    if rs == [] then [] else (if rs[0].done then [rs[0].msg] else []) + Notifications(rs[1..])
  }

  lemma {:induction false} NotificationsAdd(rs: seq<Response>, r: Response)
    ensures Notifications(rs + [r]) == Notifications(rs) + if r.done then [r.msg] else []
  {
    if rs != [] {
      NotificationsAdd(rs[1..], r);
      assert (rs + [r])[1..] == rs[1..] + [r];
    }
  }

  /** What the writer and the handler hold that may still be written. */
  function WriterHolds(c: Client): seq<Message> {
    if c.writer.Writing? && c.writer.r.done then [c.writer.r.msg] else []
  }

  function HandlerHolds(c: Client): seq<Message> {
    if c.handler.Sending? || (c.handler.Checking? && !c.disconnected) then [c.handler.msg] else []
  }

  /** What has been written, followed by everything on its way, oldest first. */
  function Line(c: Client): seq<Message> {
    c.written + WriterHolds(c) + Notifications(c.sendChan) + HandlerHolds(c)
  }

  /** What stands for the one notification the handler waits for: the message or its report. */
  function Outstanding(c: Client): nat {
    |WriterHolds(c)| + |Notifications(c.sendChan)| + |c.sentChan|
    + (if c.writer.Reporting? then 1 else 0)
    + (if c.handler.Checking? || c.handler.Sending? || c.handler.Failing? then 1 else 0)
  }

  /** Until the handler cleans up it waits exactly when a notification is outstanding or its
      write has failed, and afterwards no more than that; messages only pile up while it waits. */
  ghost predicate OneAtATime(c: Client) {
    var expected, found := if c.waiting then 1 else 0, Outstanding(c) + if c.unreported then 1 else 0;
    && found <= expected
    && (!c.handler.Draining? && !c.handler.HandlerDone? ==> found == expected)
    && (c.pending != [] ==> c.waiting)
    && (c.unreported ==> c.disconnected)
  }

  /** Notifications go out in the order they were queued; until the client disconnects all of
      them are accounted for. */
  ghost predicate InOrder(c: Client) {
    Line(c) <= c.queued && (!c.disconnected ==> c.queued == Line(c) + (c.pending + c.ntfnChan))
  }

  /** The goroutines only give up after a disconnect, and channels keep to their capacity. */
  ghost predicate Orderly(c: Client) {
    && (c.handler.Failing? || c.handler.Draining? || c.handler.HandlerDone? ==> c.disconnected)
    && (c.writer.Cleaning? || c.writer.WriterDone? || c.writer == Reporting(false) ==> c.disconnected)
    && |c.ntfnChan| <= 1 && |c.sentChan| <= 1 && |c.sendChan| <= SEND_BUFFER_SIZE
  }

  ghost predicate Inv(c: Client) {
    OneAtATime(c) && InOrder(c) && Orderly(c)
  }

  /** The first message of the writer's channel, if it is a notification. */
  lemma FirstResponse(rs: seq<Response>)
    requires rs != []
    ensures Notifications(rs) == (if rs[0].done then [rs[0].msg] else []) + Notifications(rs[1..])
  {
  }

  /** A step that leaves the line and the messages behind it alone keeps the order. */
  lemma SameLine(c: Client, d: Client)
    requires InOrder(c) && Line(d) == Line(c) && d.queued == c.queued && (c.disconnected ==> d.disconnected)
    requires !d.disconnected ==> d.pending + d.ntfnChan == c.pending + c.ntfnChan
    ensures InOrder(d)
  {
    hide Line;
  }

  /** A step that makes the line shorter at its end is possible after a disconnect. */
  lemma ShorterLine(c: Client, d: Client)
    requires InOrder(c) && Line(d) <= Line(c) && d.queued == c.queued && d.disconnected
    ensures InOrder(d)
  {
    hide Line;
  }

  /** Queueing one more message behind all others keeps the order. */
  lemma LongerQueue(c: Client, d: Client, m: Message)
    requires InOrder(c) && Line(d) == Line(c) && d.queued == c.queued + [m] && d.disconnected == c.disconnected
    requires d.pending + d.ntfnChan == c.pending + c.ntfnChan + [m]
    ensures InOrder(d)
  {
    hide Line;
  }

  lemma QueueKeeps(c: Client, m: Message)
    requires Inv(c) && Next(c, QueueNotification(m)).Some?
    ensures Inv(Next(c, QueueNotification(m)).value)
  {
    hide Notifications, InOrder;
    var d := Next(c, QueueNotification(m)).value;
    assert d.pending + d.ntfnChan == c.pending + c.ntfnChan + [m];
    LongerQueue(c, d, m);
  }

  lemma OtherKeeps(c: Client, m: Message)
    requires Inv(c) && Next(c, OtherMessage(m)).Some?
    ensures Inv(Next(c, OtherMessage(m)).value)
  {
    hide Notifications;
    NotificationsAdd(c.sendChan, Response(m, false));
    SameLine(c, Next(c, OtherMessage(m)).value);
  }

  lemma DisconnectKeeps(c: Client)
    requires Inv(c)
    ensures Inv(c.(disconnected := true))
  {
    hide Notifications;
    ShorterLine(c, c.(disconnected := true));
  }

  lemma TakeNotificationKeeps(c: Client)
    requires Inv(c) && Select(c, TakeNotification).Some?
    ensures Inv(Select(c, TakeNotification).value)
  {
    hide Notifications;
    var d := Select(c, TakeNotification).value;
    var m := c.ntfnChan[0];
    assert [m] + d.ntfnChan == c.ntfnChan;
    if c.waiting {
      assert d.pending + d.ntfnChan == c.pending + ([m] + d.ntfnChan);
      SameLine(c, d);
    } else if c.disconnected {
      SameLine(c, d);
    } else {
      assert Line(d) == Line(c) + [m];
      assert Line(c) + ([m] + d.ntfnChan) == Line(d) + d.ntfnChan;
    }
  }

  lemma TakeSentKeeps(c: Client)
    requires Inv(c) && Select(c, TakeSent).Some?
    ensures Inv(Select(c, TakeSent).value)
  {
    hide Notifications;
    var d := Select(c, TakeSent).value;
    if c.pending == [] || c.disconnected {
      SameLine(c, d);
    } else {
      var m := c.pending[0];
      assert Line(d) == Line(c) + [m];
      assert [m] + d.pending == c.pending;
      assert Line(c) + ([m] + d.pending + c.ntfnChan) == Line(d) + (d.pending + d.ntfnChan);
    }
  }

  lemma SendMessageKeeps(c: Client, s: Step)
    requires Inv(c) && InSendMessage(c, s).Some?
    ensures Inv(InSendMessage(c, s).value)
  {
    hide Notifications;
    var d := InSendMessage(c, s).value;
    if s.SendResponse? {
      NotificationsAdd(c.sendChan, Response(c.handler.msg, true));
    }
    SameLine(c, d);
  }

  lemma DrainKeeps(c: Client, s: Step)
    requires Inv(c) && Drain(c, s).Some?
    ensures Inv(Drain(c, s).value)
  {
    hide Notifications;
    SameLine(c, Drain(c, s).value);
  }

  lemma WriteKeeps(c: Client, s: Step)
    requires Inv(c) && Write(c, s).Some? && !s.WriteFails? && !s.CleanResponse?
    ensures Inv(Write(c, s).value)
  {
    hide Notifications, InOrder;
    if s.TakeResponse? {
      FirstResponse(c.sendChan);
    }
    SameLine(c, Write(c, s).value);
  }

  /** A failed write and the cleanup lose messages, but only the last ones of the line. */
  lemma LossKeeps(c: Client, s: Step)
    requires Inv(c) && Write(c, s).Some? && (s.WriteFails? || s.CleanResponse?)
    ensures Inv(Write(c, s).value)
  {
    hide Notifications;
    if s.CleanResponse? {
      FirstResponse(c.sendChan);
    }
    ShorterLine(c, Write(c, s).value);
  }

  lemma StepKeeps(c: Client, s: Step)
    requires Inv(c) && Next(c, s).Some?
    ensures Inv(Next(c, s).value)
  {
    hide Inv, Select, InSendMessage, Drain, Write;
    match s
    case QueueNotification(m) => QueueKeeps(c, m);
    case OtherMessage(m) => OtherKeeps(c, m);
    case Disconnect => DisconnectKeeps(c);
    case TakeNotification => TakeNotificationKeeps(c);
    case TakeSent => TakeSentKeeps(c);
    case HandlerQuits => QuitKeeps(c);
    case CheckDisconnected | SendResponse | ReportFailure => SendMessageKeeps(c, s);
    case DrainNotification | DrainSent | HandlerExits => DrainKeeps(c, s);
    case WriteFails | CleanResponse => LossKeeps(c, s);
    case TakeResponse | WriteOk | WriterQuits | ReportDone | WriterExits => WriteKeeps(c, s);
  }

  lemma QuitKeeps(c: Client)
    requires Inv(c) && Select(c, HandlerQuits).Some?
    ensures Inv(Select(c, HandlerQuits).value)
  {
    hide Notifications;
    SameLine(c, Select(c, HandlerQuits).value);
  }

  /** Any interleaving of the steps of the goroutines and their callers. */
  ghost predicate Run(states: seq<Client>, steps: seq<Step>) {
    && |states| == |steps| + 1
    && states[0] == Start()
    && forall i: nat :: i < |steps| ==> Next(states[i], steps[i]) == Some(states[i + 1])
  }

  lemma {:induction false} RunInv(states: seq<Client>, steps: seq<Step>, i: nat)
    requires Run(states, steps) && i < |states|
    ensures Inv(states[i])
  {
    hide Next;
    if i > 0 {
      hide Inv;
      RunInv(states, steps, i - 1);
      StepKeeps(states[i - 1], steps[i - 1]);
    }
  }

  /** In every state of every run: the notifications written are a prefix, in order, of those
      queued; none is lost while the client is connected; at most one is outstanding, and while
      connected the handler waits exactly when one is; and a goroutine that is about to report on
      the done channel, which holds one value, can. */
  lemma EveryRunDelivers(states: seq<Client>, steps: seq<Step>, i: nat)
    requires Run(states, steps) && i < |states|
    ensures states[i].written <= states[i].queued
    ensures !states[i].disconnected ==> states[i].queued == Line(states[i]) + (states[i].pending + states[i].ntfnChan)
    ensures Outstanding(states[i]) <= 1
    ensures !states[i].disconnected ==> (states[i].waiting <==> Outstanding(states[i]) == 1)
    ensures states[i].handler.Failing? ==> Next(states[i], ReportFailure).Some?
    ensures states[i].writer.Reporting? ==> Next(states[i], ReportDone).Some?
  {
    hide Notifications;
    RunInv(states, steps, i);
    assert states[i].written <= Line(states[i]);
  }

  /** The messages given to `QueueNotification`. */
  function Queued(steps: seq<Step>): seq<Message> {
    if steps == [] then []
    else
      var last := |steps| - 1;
      Queued(steps[..last]) + if steps[last].QueueNotification? then [steps[last].msg] else []
  }

  lemma StepQueues(c: Client, s: Step)
    requires Next(c, s).Some?
    ensures Next(c, s).value.queued == c.queued + if s.QueueNotification? then [s.msg] else []
  {
  }

  /** What counts as queued is what was given to `QueueNotification`, in that order. */
  lemma {:induction false} QueuedIsGiven(states: seq<Client>, steps: seq<Step>, i: nat)
    requires Run(states, steps) && i < |states|
    ensures states[i].queued == Queued(steps[..i])
  {
    hide Next;
    if i > 0 {
      QueuedIsGiven(states, steps, i - 1);
      assert steps[..i][..i - 1] == steps[..i - 1];
      assert Next(states[i - 1], steps[i - 1]) == Some(states[i - 1 + 1]);
      StepQueues(states[i - 1], steps[i - 1]);
    }
  }
}
