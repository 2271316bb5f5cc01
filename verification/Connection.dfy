/** One connection as a step system: the main loop, the task that writes queued messages to the
    socket, and the tasks that answer log queries, in any interleaving. */
module Connection {
  import opened Text
  import opened LogRecords
  import opened Protocol
  import opened Dispatch

  // ----- state -----

  datatype Ending = Stopped | Again(after: Option<U64>) | Error

  datatype Stage =
    | Connecting | AwaitChallenge | SendingAuth | AwaitWelcome  // handshake
    | FirstMetrics | FirstSystemInfo                            // before the loop
    | Steady                                                    // the select loop
    | Over(ending: Ending)                                      // the main task has returned

  datatype WireFrame = Hello | Auth | Frame(message: Outbound)

  datatype Sender = MainLoop | QueryTask

  datatype Sent = Sent(sender: Sender, message: Outbound)

  /** What the main task did after the welcome, in program order. */
  datatype MainEvent =
    | Welcomed
    | MetricsRead(payload: Option<string>)
    | SystemChecked(hash: string, publish: bool, at: nat)
    | Handled(message: IncomingMessage)
    | ResyncTicked

  datatype Publication = Publication(hash: string, at: nat)

  datatype Conn = Conn(
    stage: Stage,
    wire: seq<WireFrame>,
    writerAlive: bool,
    queue: seq<Outbound>,
    todo: seq<Outbound>,         // decided by the main task, not yet sent
    tasks: multiset<string>,     // request ids of log queries in flight
    lastDesired: Option<NodeDesiredState>,
    lastHash: Option<string>,
    lastPublished: Option<nat>,
    clock: nat,
    // history, read by no step
    sent: seq<Sent>,             // what entered the channel, in order
    lost: seq<Sent>,             // what was sent to it after the writer was gone
    trace: seq<MainEvent>,
    asked: multiset<string>,     // request ids of log queries handled
    unanswered: multiset<string>,// of those whose task failed
    published: seq<Publication>,
    heard: seq<IncomingMessage>) // every message decoded on this connection

  function Fresh(): Conn {
    Conn(Connecting, [], true, [], [], multiset{}, None, None, None, 0, [], [], [], multiset{}, multiset{}, [], [])
  }

  // ----- steps -----

  datatype Incoming = Text(raw: RawText) | OtherFrame | Lost(stopping: bool)

  datatype Step =
    | Connected(helloSent: bool)
    | Read(frame: Incoming)
    | AuthWritten(ok: bool)
    | HandshakeTimeout
    | CollectMetrics(payload: Option<string>)
    | CheckSystem(hash: Option<string>, now: nat)
    | ResyncTick
    | StopSignal
    | MainSend(now: nat)
    | WriterSend
    | WriterFail
    | TaskReply(id: string, records: seq<Record>, next: Option<string>)
    | TaskFail(id: string)

  /** Put one message into the channel; if the writer is gone it is lost. */
  function Send(c: Conn, sender: Sender, m: Outbound): Conn {
    if c.writerAlive then c.(queue := c.queue + [m], sent := c.sent + [Sent(sender, m)])
    else c.(lost := c.lost + [Sent(sender, m)])
  }

  function Hear(c: Conn, m: IncomingMessage): Conn { c.(heard := c.heard + [m]) }

  /** The handshake ignores every message but the one it waits for. */
  function Handshake(c: Conn, m: IncomingMessage): Conn {
    var d := Hear(c, m);
    if c.stage == AwaitChallenge && m.Challenge? then d.(stage := SendingAuth)
    else if c.stage == AwaitWelcome && m.Welcome? then
      if m.welcome.upgradeRequired == Some(true) then d.(stage := Over(Error))
      else d.(stage := FirstMetrics, todo := [LogCapabilities], trace := [Welcomed])
    else d
  }

  /** One message read by the select loop. */
  function Loop(c: Conn, m: IncomingMessage): Conn {
    var d := Hear(c, m).(todo := Replies(m), trace := c.trace + [Handled(m)]);
    match m
    case Goaway(ms) => d.(stage := Over(Again(Some(ms))))
    case Desired(state) => d.(lastDesired := Some(state))
    case LogQuery(q) => d.(tasks := c.tasks + multiset{q.requestId}, asked := c.asked + multiset{q.requestId})
    case _ => d
  }

  /** A frame that is not text or does not decode is passed over; a lost connection ends the session. */
  function ReadFrame(c: Conn, frame: Incoming): Conn {
    match frame
    case OtherFrame => c
    case Lost(stopping) => c.(stage := Over(if c.stage == Steady && stopping then Stopped else Error))
    case Text(raw) =>
      match Decode(raw)
      case InvalidEnvelope => c
      case InvalidBody(_) => c
      case Message(m) => if c.stage == Steady then Loop(c, m) else Handshake(c, m)
  }

  predicate Reading(c: Conn) {
    c.stage == AwaitChallenge || c.stage == AwaitWelcome || (c.stage == Steady && c.todo == [])
  }

  function Payload(p: Option<string>): seq<Outbound> { match p case None => [] case Some(m) => [Metrics(m)] }

  /** Publish when forced, when the hash changed, or when the last publication is old enough. */
  predicate ShouldPublish(c: Conn, force: bool, hash: string, now: nat, interval: nat) {
    force || c.lastHash != Some(hash) || (c.lastPublished.Some? ==> now >= c.lastPublished.value + interval)
  }

  function Check(c: Conn, force: bool, hash: Option<string>, now: nat, interval: nat): Conn {
    var d := c.(clock := now, stage := Steady);
    match hash
    case None => d
    case Some(h) =>
      var publish := ShouldPublish(c, force, h, now, interval);
      d.(trace := c.trace + [SystemChecked(h, publish, now)], todo := if publish then [SystemInfo(h)] else [])
  }

  function SendNext(c: Conn, now: nat): Conn
    requires c.todo != []
  {
    var m := c.todo[0];
    var d := Send(c, MainLoop, m).(todo := c.todo[1..], clock := now);
    if m.SystemInfo? && c.writerAlive then
      d.(lastHash := Some(m.hash), lastPublished := Some(now), published := c.published + [Publication(m.hash, now)])
    else d
  }

  /** The state after a step; a step that is not possible in `c` changes nothing. */
  function Next(c: Conn, s: Step, interval: nat): Conn {
    match s
    case Connected(helloSent) =>
      if c.stage != Connecting then c
      else if helloSent then c.(stage := AwaitChallenge, wire := [Hello]) else c.(stage := Over(Error))
    case Read(frame) => if Reading(c) then ReadFrame(c, frame) else c
    case AuthWritten(ok) =>
      if c.stage != SendingAuth then c
      else if ok then c.(stage := AwaitWelcome, wire := c.wire + [Auth]) else c.(stage := Over(Error))
    case HandshakeTimeout =>
      if c.stage == AwaitChallenge || c.stage == AwaitWelcome then c.(stage := Over(Error)) else c
    case CollectMetrics(payload) =>
      if c.todo != [] then c
      else if c.stage == FirstMetrics then
        c.(stage := FirstSystemInfo, todo := Payload(payload), trace := c.trace + [MetricsRead(payload)])
      else if c.stage == Steady then c.(todo := Payload(payload), trace := c.trace + [MetricsRead(payload)])
      else c
    case CheckSystem(hash, now) =>
      if c.todo != [] || now < c.clock then c
      else if c.stage == FirstSystemInfo then Check(c, true, hash, now, interval)
      else if c.stage == Steady then Check(c, false, hash, now, interval)
      else c
    case ResyncTick =>
      if c.stage == Steady && c.todo == [] then
        c.(todo := match c.lastDesired case None => [] case Some(state) => ResyncReplies(state),
           trace := c.trace + [ResyncTicked])
      else c
    case StopSignal => if c.stage == Steady && c.todo == [] then c.(stage := Over(Stopped)) else c
    case MainSend(now) => if c.todo == [] || now < c.clock then c else SendNext(c, now)
    case WriterSend =>
      if !c.writerAlive || c.queue == [] then c
      else c.(wire := c.wire + [Frame(c.queue[0])], queue := c.queue[1..])
    case WriterFail => if !c.writerAlive || c.queue == [] then c else c.(writerAlive := false, queue := [])
    case TaskReply(id, records, next) =>
      if id !in c.tasks then c
      else Send(c.(tasks := c.tasks - multiset{id}), QueryTask, LogResult(id, records, next))
    case TaskFail(id) =>
      if id !in c.tasks then c
      else c.(tasks := c.tasks - multiset{id}, unanswered := c.unanswered + multiset{id})
  }

  function Run(c: Conn, steps: seq<Step>, interval: nat): Conn {
    if steps == [] then c else Next(Run(c, steps[..|steps| - 1], interval), steps[|steps| - 1], interval)
  }

  // ----- malformed and unknown frames -----

  /** Everything a step can depend on. */
  function View(c: Conn): Conn {
    c.(sent := [], lost := [], trace := [], asked := multiset{}, unanswered := multiset{}, published := [], heard := [])
  }

  /** In the loop a text frame leaves the session as it was exactly when it does not decode, is of an
      unknown type, or is a handshake message. */
  lemma StrayFramesChangeNothing(c: Conn, raw: RawText, interval: nat)
    requires c.stage == Steady && c.todo == []
    ensures View(Next(c, Read(Text(raw)), interval)) == View(c)
       <==> match Decode(raw)
            case Message(m) => m.Unhandled? || m.Challenge? || m.Welcome?
            case _ => true
  {
    match Decode(raw)
    case Message(m) =>
      if m.LogQuery? {
        var id := m.query.requestId;
        assert (c.tasks + multiset{id})[id] == c.tasks[id] + 1;
      }
    case _ =>
  }

  /** While waiting for a handshake message, exactly that message moves the session on. */
  lemma OnlyTheAwaitedMessageCounts(c: Conn, raw: RawText, interval: nat)
    requires c.stage == AwaitChallenge || c.stage == AwaitWelcome
    ensures View(Next(c, Read(Text(raw)), interval)) != View(c)
       <==> match Decode(raw)
            case Message(m) => if c.stage == AwaitChallenge then m.Challenge? else m.Welcome?
            case _ => false
  {
  }
}
