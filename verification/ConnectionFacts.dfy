/** What holds in every state of every run of a connection, and of all connections of the agent. */
module ConnectionFacts {
  import opened Text
  import opened Protocol
  import opened Dispatch
  import opened Connection

  // ----- the wire -----

  function Frames(sent: seq<Sent>): (r: seq<WireFrame>)
    ensures |r| == |sent|
    ensures forall i :: 0 <= i < |sent| ==> r[i] == Frame(sent[i].message)
  {
    seq(|sent|, i requires 0 <= i < |sent| => Frame(sent[i].message))
  }

  function QueueFrames(q: seq<Outbound>): (r: seq<WireFrame>)
    ensures |r| == |q|
    ensures forall i :: 0 <= i < |q| ==> r[i] == Frame(q[i])
  {
    seq(|q|, i requires 0 <= i < |q| => Frame(q[i]))
  }

  predicate BeforeWelcome(s: Stage) { s.Connecting? || s.AwaitChallenge? || s.SendingAuth? || s.AwaitWelcome? }

  predicate HeardChallenge(heard: seq<IncomingMessage>) { exists i :: 0 <= i < |heard| && heard[i].Challenge? }

  /** A welcome that asks for no upgrade, after a challenge. */
  predicate HeardWelcome(heard: seq<IncomingMessage>) {
    exists i, j :: 0 <= i < j < |heard| && heard[i].Challenge?
                && heard[j].Welcome? && heard[j].welcome.upgradeRequired != Some(true)
  }

  /** Up to the welcome nothing has entered the channel and the wire shows the handshake so far;
      afterwards wire and queue together are the handshake and everything sent, in order. */
  ghost predicate WireInv(c: Conn) {
    && (c.stage.Connecting? ==> c.wire == [])
    && (c.stage.AwaitChallenge? || c.stage.SendingAuth? ==> c.wire == [Hello])
    && (c.stage.AwaitWelcome? ==> c.wire == [Hello, Auth])
    && (c.stage.SendingAuth? || c.stage.AwaitWelcome? || |c.wire| >= 2 ==> HeardChallenge(c.heard))
    && (c.trace == [] ==>
          c.sent == [] && c.lost == [] && c.queue == [] && c.todo == [] && c.tasks == multiset{} && c.wire <= [Hello, Auth])
    && (BeforeWelcome(c.stage) ==> c.trace == [] && c.writerAlive)
    && (c.trace != [] ==> HeardWelcome(c.heard))
    && (c.trace != [] && c.writerAlive ==> c.wire + QueueFrames(c.queue) == [Hello, Auth] + Frames(c.sent))
    && (c.trace != [] && !c.writerAlive ==> c.queue == [] && c.wire <= [Hello, Auth] + Frames(c.sent))
    && (c.writerAlive ==> c.lost == [])
    && (c.stage.FirstMetrics? || c.stage.FirstSystemInfo? || c.stage.Steady? ==> c.trace != [])
  }

  lemma HeardMore(heard: seq<IncomingMessage>, m: IncomingMessage)
    ensures HeardChallenge(heard) ==> HeardChallenge(heard + [m])
    ensures HeardWelcome(heard) ==> HeardWelcome(heard + [m])
    ensures m.Challenge? ==> HeardChallenge(heard + [m])
    ensures HeardChallenge(heard) && m.Welcome? && m.welcome.upgradeRequired != Some(true) ==> HeardWelcome(heard + [m])
  {
    var h := heard + [m];
    if HeardChallenge(heard) {
      var i :| 0 <= i < |heard| && heard[i].Challenge?;
      assert h[i].Challenge?;
      if m.Welcome? && m.welcome.upgradeRequired != Some(true) { assert h[i].Challenge? && h[|heard|].Welcome?; }
    }
    if HeardWelcome(heard) {
      var i, j :| 0 <= i < j < |heard| && heard[i].Challenge?
                  && heard[j].Welcome? && heard[j].welcome.upgradeRequired != Some(true);
      assert h[i].Challenge? && h[j].Welcome?;
    }
    if m.Challenge? { assert h[|heard|].Challenge?; }
  }

  lemma SendKeepsWire(c: Conn, sender: Sender, m: Outbound)
    requires WireInv(c) && c.trace != []
    ensures WireInv(Send(c, sender, m))
  {
    var d := Send(c, sender, m);
    if c.writerAlive {
      assert QueueFrames(d.queue) == QueueFrames(c.queue) + [Frame(m)];
      assert Frames(d.sent) == Frames(c.sent) + [Frame(m)];
      Assoc(c.wire, QueueFrames(c.queue), [Frame(m)]);
      Assoc([Hello, Auth], Frames(c.sent), [Frame(m)]);
    }
  }

  lemma MessageKeepsWire(c: Conn, m: IncomingMessage)
    requires WireInv(c) && Reading(c)
    ensures WireInv(if c.stage == Steady then Loop(c, m) else Handshake(c, m))
  {
    HeardMore(c.heard, m);
  }

  lemma ReadKeepsWire(c: Conn, frame: Incoming)
    requires WireInv(c) && Reading(c)
    ensures WireInv(ReadFrame(c, frame))
  {
    match frame
    case Text(raw) =>
      match Decode(raw) {
        case Message(m) => MessageKeepsWire(c, m);
        case _ =>
      }
    case _ =>
  }

  lemma WriterKeepsWire(c: Conn, s: Step, interval: nat)
    requires WireInv(c) && (s.WriterSend? || s.WriterFail?)
    ensures WireInv(Next(c, s, interval))
  {
    if c.writerAlive && c.queue != [] {
      assert QueueFrames(c.queue) == [Frame(c.queue[0])] + QueueFrames(c.queue[1..]);
      Assoc(c.wire, [Frame(c.queue[0])], QueueFrames(c.queue[1..]));
    }
  }

  lemma SendStepKeepsWire(c: Conn, now: nat)
    requires WireInv(c) && c.todo != []
    ensures WireInv(SendNext(c, now))
  {
    SendKeepsWire(c, MainLoop, c.todo[0]);
  }

  lemma ReplyKeepsWire(c: Conn, id: string, m: Outbound)
    requires WireInv(c) && id in c.tasks
    ensures WireInv(Send(c.(tasks := c.tasks - multiset{id}), QueryTask, m))
  {
    SendKeepsWire(c.(tasks := c.tasks - multiset{id}), QueryTask, m);
  }

  lemma TickKeepsWire(c: Conn, s: Step, interval: nat)
    requires WireInv(c) && (s.CollectMetrics? || s.ResyncTick? || s.TaskFail?)
    ensures WireInv(Next(c, s, interval))
  {
  }

  lemma CheckKeepsWire(c: Conn, hash: Option<string>, now: nat, interval: nat)
    requires WireInv(c)
    ensures WireInv(Next(c, CheckSystem(hash, now), interval))
  {
  }

  lemma StageStepKeepsWire(c: Conn, s: Step, interval: nat)
    requires WireInv(c) && (s.Connected? || s.AuthWritten? || s.HandshakeTimeout? || s.StopSignal?)
    ensures WireInv(Next(c, s, interval))
  {
  }

  lemma StepKeepsWire(c: Conn, s: Step, interval: nat)
    requires WireInv(c)
    ensures WireInv(Next(c, s, interval))
  {
    hide WireInv;
    match s
    case Read(frame) => if Reading(c) { ReadKeepsWire(c, frame); }
    case WriterSend => WriterKeepsWire(c, s, interval);
    case WriterFail => WriterKeepsWire(c, s, interval);
    case MainSend(now) => if c.todo != [] { SendStepKeepsWire(c, now); }
    case TaskReply(id, records, next) => if id in c.tasks { ReplyKeepsWire(c, id, LogResult(id, records, next)); }
    case CollectMetrics(_) => TickKeepsWire(c, s, interval);
    case ResyncTick => TickKeepsWire(c, s, interval);
    case TaskFail(_) => TickKeepsWire(c, s, interval);
    case CheckSystem(hash, now) => CheckKeepsWire(c, hash, now, interval);
    case _ => StageStepKeepsWire(c, s, interval);
  }

  lemma {:induction false} RunKeepsWire(steps: seq<Step>, interval: nat)
    ensures WireInv(Run(Fresh(), steps, interval))
  {
    if steps != [] {
      var k := |steps| - 1;
      RunKeepsWire(steps[..k], interval);
      StepKeepsWire(Run(Fresh(), steps[..k], interval), steps[k], interval);
    }
  }

  /** In every interleaving: the wire shows a prefix of hello, auth and then the channel's send order;
      auth is there only after a challenge, anything more only after a later welcome. */
  lemma WireFollowsSendOrder(steps: seq<Step>, interval: nat)
    ensures var c := Run(Fresh(), steps, interval);
            && c.wire <= [Hello, Auth] + Frames(c.sent)
            && (|c.wire| >= 2 ==> HeardChallenge(c.heard))
            && (|c.wire| >= 3 || c.sent != [] ==> HeardWelcome(c.heard))
            && (c.trace != [] && c.writerAlive && c.queue == [] ==> c.wire == [Hello, Auth] + Frames(c.sent))
  {
    RunKeepsWire(steps, interval);
    var c := Run(Fresh(), steps, interval);
    var w := [Hello, Auth] + Frames(c.sent);
    if c.trace != [] && c.writerAlive {
      assert w[..|c.wire|] == c.wire;
      assert c.queue == [] ==> c.wire + QueueFrames(c.queue) == c.wire;
    }
  }

  // ----- the main task's messages -----

  function Messages(s: seq<Sent>, sender: Sender): seq<Outbound> {
    if s == [] then []
    else
      var k := |s| - 1;
      Messages(s[..k], sender) + if s[k].sender == sender then [s[k].message] else []
  }

  /** The last desired state handled, if any. */
  function LatestDesired(trace: seq<MainEvent>): Option<NodeDesiredState> {
    if trace == [] then None
    else
      var k := |trace| - 1;
      if trace[k].Handled? && trace[k].message.Desired? then Some(trace[k].message.state) else LatestDesired(trace[..k])
  }

  /** What one event queues, given everything before it: a desired state its statuses and one event, a
      resync tick the statuses of the latest desired state and no event. */
  function Emits(before: seq<MainEvent>, e: MainEvent): seq<Outbound> {
    match e
    case Welcomed => [LogCapabilities]
    case MetricsRead(payload) => Payload(payload)
    case SystemChecked(hash, publish, _) => if publish then [SystemInfo(hash)] else []
    case Handled(m) => Replies(m)
    case ResyncTicked => match LatestDesired(before) case None => [] case Some(state) => ResyncReplies(state)
  }

  function Expected(trace: seq<MainEvent>): seq<Outbound> {
    if trace == [] then []
    else var k := |trace| - 1; Expected(trace[..k]) + Emits(trace[..k], trace[k])
  }

  /** What the main task has sent or lost, and still has to send, is exactly what its events call for. */
  predicate Balanced(sent: seq<Sent>, lost: seq<Sent>, todo: seq<Outbound>, trace: seq<MainEvent>) {
    Messages(sent, MainLoop) + Messages(lost, MainLoop) + todo == Expected(trace)
  }

  ghost predicate MainInv(c: Conn) {
    && Balanced(c.sent, c.lost, c.todo, c.trace)
    && c.lastDesired == LatestDesired(c.trace)
    && (c.writerAlive ==> c.lost == [])
    && (BeforeWelcome(c.stage) ==> c.trace == [])
    && (c.trace == [] ==> c.todo == [] && c.sent == [] && c.lost == [])
  }

  lemma ExpectedSnoc(trace: seq<MainEvent>, e: MainEvent)
    ensures Expected(trace + [e]) == Expected(trace) + Emits(trace, e)
    ensures LatestDesired(trace + [e]) == if e.Handled? && e.message.Desired? then Some(e.message.state) else LatestDesired(trace)
  {
    assert (trace + [e])[..|trace|] == trace;
  }

  lemma MessagesSnoc(s: seq<Sent>, x: Sent, sender: Sender)
    ensures Messages(s + [x], sender) == Messages(s, sender) + if x.sender == sender then [x.message] else []
  {
    assert (s + [x])[..|s|] == s;
  }

  lemma OneMoreEvent(sent: seq<Sent>, lost: seq<Sent>, trace: seq<MainEvent>, e: MainEvent)
    requires Balanced(sent, lost, [], trace)
    ensures Balanced(sent, lost, Emits(trace, e), trace + [e])
  {
    ExpectedSnoc(trace, e);
    var ab := Messages(sent, MainLoop) + Messages(lost, MainLoop);
    assert ab + [] == ab;
  }

  /** The main task takes on one more event while it has nothing to send. */
  lemma NewEvent(c: Conn, e: MainEvent, d: Conn)
    requires MainInv(c) && c.todo == [] && !BeforeWelcome(d.stage)
    requires d.sent == c.sent && d.lost == c.lost && d.writerAlive == c.writerAlive
    requires d.trace == c.trace + [e] && d.todo == Emits(c.trace, e)
    requires d.lastDesired == if e.Handled? && e.message.Desired? then Some(e.message.state) else c.lastDesired
    ensures MainInv(d)
  {
    OneMoreEvent(c.sent, c.lost, c.trace, e);
    ExpectedSnoc(c.trace, e);
  }

  lemma TaskSendIsNotMain(s: seq<Sent>, m: Outbound)
    ensures Messages(s + [Sent(QueryTask, m)], MainLoop) == Messages(s, MainLoop)
  {
    MessagesSnoc(s, Sent(QueryTask, m), MainLoop);
  }

  lemma ReplyKeepsMain(c: Conn, id: string, m: Outbound)
    requires MainInv(c) && WireInv(c) && id in c.tasks
    ensures MainInv(Send(c.(tasks := c.tasks - multiset{id}), QueryTask, m))
  {
    TaskSendIsNotMain(c.sent, m);
    TaskSendIsNotMain(c.lost, m);
  }

  /** A step that leaves the main task's part alone. */
  lemma SameKeepsMain(c: Conn, d: Conn)
    requires MainInv(c)
    requires d.sent == c.sent && d.lost == c.lost && d.todo == c.todo && d.trace == c.trace && d.lastDesired == c.lastDesired
    requires (d.writerAlive ==> c.writerAlive) && (BeforeWelcome(d.stage) ==> BeforeWelcome(c.stage))
    ensures MainInv(d)
  {
  }

  lemma MainSendKeepsMain(c: Conn, now: nat)
    requires MainInv(c) && c.todo != []
    ensures MainInv(SendNext(c, now))
  {
    var m := c.todo[0];
    var x := Sent(MainLoop, m);
    MessagesSnoc(c.sent, x, MainLoop);
    MessagesSnoc(c.lost, x, MainLoop);
    var a, b := Messages(c.sent, MainLoop), Messages(c.lost, MainLoop);
    assert c.todo == [m] + c.todo[1..];
    if c.writerAlive {
      assert b == [] && a + b == a && (a + [m]) + b == a + [m];
      Assoc(a, [m], c.todo[1..]);
    } else {
      Assoc(a, b, [m]);
      Assoc(a + b, [m], c.todo[1..]);
    }
  }

  lemma WelcomeKeepsMain(c: Conn, d: Conn)
    requires MainInv(c) && c.trace == [] && d.trace == [Welcomed] && d.todo == [LogCapabilities]
    requires d.sent == c.sent && d.lost == c.lost && d.writerAlive == c.writerAlive
    requires d.lastDesired == c.lastDesired && !BeforeWelcome(d.stage)
    ensures MainInv(d)
  {
    assert [] + [Welcomed] == [Welcomed];
    NewEvent(c, Welcomed, d);
  }

  lemma LoopKeepsMain(c: Conn, m: IncomingMessage)
    requires MainInv(c) && c.todo == [] && c.stage == Steady
    ensures MainInv(Loop(c, m))
  {
    hide MainInv;
    NewEvent(c, Handled(m), Loop(c, m));
  }

  lemma HandshakeKeepsMain(c: Conn, m: IncomingMessage)
    requires MainInv(c) && (c.stage == AwaitChallenge || c.stage == AwaitWelcome)
    ensures MainInv(Handshake(c, m))
  {
    var d := Handshake(c, m);
    if d.stage == FirstMetrics { WelcomeKeepsMain(c, d); } else { SameKeepsMain(c, d); }
  }

  lemma ReadKeepsMain(c: Conn, frame: Incoming)
    requires MainInv(c) && Reading(c)
    ensures MainInv(ReadFrame(c, frame))
  {
    hide MainInv;
    match frame
    case Text(raw) =>
      match Decode(raw) {
        case Message(m) => if c.stage == Steady { LoopKeepsMain(c, m); } else { HandshakeKeepsMain(c, m); }
        case _ =>
      }
    case Lost(_) => SameKeepsMain(c, ReadFrame(c, frame));
    case OtherFrame =>
  }

  lemma CollectKeepsMain(c: Conn, payload: Option<string>, interval: nat)
    requires MainInv(c)
    ensures MainInv(Next(c, CollectMetrics(payload), interval))
  {
    hide MainInv;
    if c.todo == [] && (c.stage == FirstMetrics || c.stage == Steady) {
      NewEvent(c, MetricsRead(payload), Next(c, CollectMetrics(payload), interval));
    }
  }

  lemma CheckKeepsMain(c: Conn, force: bool, hash: Option<string>, now: nat, interval: nat)
    requires MainInv(c) && c.todo == [] && !BeforeWelcome(c.stage)
    ensures MainInv(Check(c, force, hash, now, interval))
  {
    hide MainInv;
    var d := Check(c, force, hash, now, interval);
    match hash
    case None => SameKeepsMain(c, d);
    case Some(h) => NewEvent(c, SystemChecked(h, ShouldPublish(c, force, h, now, interval), now), d);
  }

  lemma ResyncKeepsMain(c: Conn, interval: nat)
    requires MainInv(c) && c.stage == Steady && c.todo == []
    ensures MainInv(Next(c, ResyncTick, interval))
  {
    assert c.lastDesired == LatestDesired(c.trace);
    hide MainInv, LatestDesired, ResyncReplies;
    NewEvent(c, ResyncTicked, Next(c, ResyncTick, interval));
  }

  lemma StepKeepsMain(c: Conn, s: Step, interval: nat)
    requires MainInv(c) && WireInv(c)
    ensures MainInv(Next(c, s, interval))
  {
    hide MainInv, WireInv;
    match s
    case Read(frame) => if Reading(c) { ReadKeepsMain(c, frame); }
    case MainSend(now) => if c.todo != [] { MainSendKeepsMain(c, now); }
    case TaskReply(id, records, next) => if id in c.tasks { ReplyKeepsMain(c, id, LogResult(id, records, next)); }
    case CollectMetrics(payload) => CollectKeepsMain(c, payload, interval);
    case CheckSystem(hash, now) =>
      if c.todo == [] && now >= c.clock {
        if c.stage == FirstSystemInfo { CheckKeepsMain(c, true, hash, now, interval); }
        else if c.stage == Steady { CheckKeepsMain(c, false, hash, now, interval); }
      }
    case ResyncTick => if c.stage == Steady && c.todo == [] { ResyncKeepsMain(c, interval); }
    case _ => SameKeepsMain(c, Next(c, s, interval));
  }

  lemma {:induction false} RunKeepsMain(steps: seq<Step>, interval: nat)
    ensures MainInv(Run(Fresh(), steps, interval))
  {
    if steps != [] {
      var k := |steps| - 1;
      RunKeepsMain(steps[..k], interval);
      RunKeepsWire(steps[..k], interval);
      StepKeepsMain(Run(Fresh(), steps[..k], interval), steps[k], interval);
    }
  }

  /** In every interleaving the main task's messages enter the channel in program order, with none
      missing, added or repeated: together they are a prefix of what its events call for, and all of it
      once nothing is left to send and nothing was lost. */
  lemma MainOrderIsProgramOrder(steps: seq<Step>, interval: nat)
    ensures var c := Run(Fresh(), steps, interval);
            && Messages(c.sent, MainLoop) <= Expected(c.trace)
            && (c.todo == [] && c.lost == [] ==> Messages(c.sent, MainLoop) == Expected(c.trace))
  {
    RunKeepsMain(steps, interval);
    var c := Run(Fresh(), steps, interval);
    var a, b := Messages(c.sent, MainLoop), Messages(c.lost, MainLoop);
    Assoc(a, b, c.todo);
    assert (a + (b + c.todo))[..|a|] == a;
  }
}
