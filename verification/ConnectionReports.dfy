/** What a connection reports: events, statuses, log results and system information. */
module ConnectionReports {
  import opened Text
  import opened Protocol
  import opened Dispatch
  import opened Connection
  import opened ConnectionFacts

  // ----- events and statuses -----

  function EventCount(ms: seq<Outbound>): nat {
    if ms == [] then 0 else (if ms[0].Event? then 1 else 0) + EventCount(ms[1..])
  }

  function DesiredCount(trace: seq<MainEvent>): nat {
    if trace == [] then 0
    else
      var k := |trace| - 1;
      DesiredCount(trace[..k]) + if trace[k].Handled? && trace[k].message.Desired? then 1 else 0
  }

  lemma {:induction false} EventCountAppend(a: seq<Outbound>, b: seq<Outbound>)
    ensures EventCount(a + b) == EventCount(a) + EventCount(b)
  {
    if a == [] {
      assert a + b == b;
    } else {
      assert (a + b)[1..] == a[1..] + b;
      EventCountAppend(a[1..], b);
    }
  }

  lemma EventsOfPrefix(a: seq<Outbound>, b: seq<Outbound>)
    requires a <= b
    ensures EventCount(a) <= EventCount(b)
  {
    EventCountAppend(a, b[|a|..]);
    assert b == a + b[|a|..];
  }

  lemma {:induction false} NoEvents(ms: seq<Outbound>)
    requires forall m :: m in ms ==> !m.Event?
    ensures EventCount(ms) == 0
  {
    if ms != [] { NoEvents(ms[1..]); }
  }

  lemma EventsOfReplies(before: seq<MainEvent>, e: MainEvent)
    ensures EventCount(Emits(before, e)) == if e.Handled? && e.message.Desired? then 1 else 0
  {
    if e.Handled? && e.message.Desired? {
      var ss := Statuses(StatusesOf(e.message.state));
      NoEvents(ss);
      EventCountAppend(ss, [Event(EventOf(e.message.state))]);
      assert [Event(EventOf(e.message.state))][1..] == [];
    } else {
      NoEvents(Emits(before, e));
    }
  }

  /** Events equal desired states handled: resync ticks and other messages queue none. */
  lemma {:induction false} OneEventPerDesired(trace: seq<MainEvent>)
    ensures EventCount(Expected(trace)) == DesiredCount(trace)
  {
    if trace != [] {
      var k := |trace| - 1;
      OneEventPerDesired(trace[..k]);
      EventsOfReplies(trace[..k], trace[k]);
      EventCountAppend(Expected(trace[..k]), Emits(trace[..k], trace[k]));
    }
  }

  /** `state` was handled on this connection. */
  predicate WasDesired(trace: seq<MainEvent>, state: NodeDesiredState) { Handled(Desired(state)) in trace }

  lemma {:induction false} LatestWasDesired(trace: seq<MainEvent>)
    ensures LatestDesired(trace).Some? ==> WasDesired(trace, LatestDesired(trace).value)
  {
    if trace != [] {
      var k := |trace| - 1;
      LatestWasDesired(trace[..k]);
      assert trace == trace[..k] + [trace[k]];
    }
  }

  ghost predicate FromOwnDesired(trace: seq<MainEvent>, s: ObjectStatus) {
    exists state :: WasDesired(trace, state) && s in StatusesOf(state)
  }

  lemma StatusListed(ss: seq<ObjectStatus>, s: ObjectStatus)
    requires Status(s) in Statuses(ss)
    ensures s in ss
  {
    var i :| 0 <= i < |Statuses(ss)| && Statuses(ss)[i] == Status(s);
    assert ss[i] == s;
  }

  /** The desired state an event reports on. */
  function Reported(before: seq<MainEvent>, e: MainEvent): Option<NodeDesiredState> {
    match e
    case Handled(m) => if m.Desired? then Some(m.state) else None
    case ResyncTicked => LatestDesired(before)
    case _ => None
  }

  lemma EmittedStatus(before: seq<MainEvent>, e: MainEvent, s: ObjectStatus)
    requires Status(s) in Emits(before, e)
    ensures Reported(before, e).Some? && s in StatusesOf(Reported(before, e).value)
  {
    var r := Reported(before, e);
    if r.Some? {
      assert Status(s) in Statuses(StatusesOf(r.value));
      StatusListed(StatusesOf(r.value), s);
    }
  }

  /** No status comes from anywhere but a desired state of the same connection. */
  lemma {:induction false} StatusesAreOwn(trace: seq<MainEvent>, s: ObjectStatus)
    requires Status(s) in Expected(trace)
    ensures FromOwnDesired(trace, s)
  {
    var k := |trace| - 1;
    var before, e := trace[..k], trace[k];
    if Status(s) in Expected(before) {
      StatusesAreOwn(before, s);
      var state :| WasDesired(before, state) && s in StatusesOf(state);
      assert WasDesired(trace, state);
    } else {
      EmittedStatus(before, e, s);
      LatestWasDesired(before);
      assert WasDesired(trace, Reported(before, e).value);
    }
  }

  // ----- log queries -----

  function Results(ms: seq<Outbound>): multiset<string> {
    if ms == [] then multiset{}
    else
      var k := |ms| - 1;
      Results(ms[..k]) + if ms[k].LogResult? then multiset{ms[k].requestId} else multiset{}
  }

  /** Request ids of the queries handled. */
  function AskedIn(trace: seq<MainEvent>): multiset<string> {
    if trace == [] then multiset{}
    else
      var k := |trace| - 1;
      AskedIn(trace[..k]) + if trace[k].Handled? && trace[k].message.LogQuery? then multiset{trace[k].message.query.requestId} else multiset{}
  }

  predicate Accounted(asked: multiset<string>, tasks: multiset<string>, sent: seq<Sent>, lost: seq<Sent>, failed: multiset<string>) {
    asked == tasks + Results(Messages(sent, QueryTask)) + Results(Messages(lost, QueryTask)) + failed
  }

  /** Every query handled is in flight, answered once into the channel, answered after it closed, or failed. */
  ghost predicate QueryInv(c: Conn) {
    && Accounted(c.asked, c.tasks, c.sent, c.lost, c.unanswered)
    && c.asked == AskedIn(c.trace)
    && (BeforeWelcome(c.stage) ==> c.trace == [])
  }

  lemma ResultsSnoc(ms: seq<Outbound>, m: Outbound)
    ensures Results(ms + [m]) == Results(ms) + if m.LogResult? then multiset{m.requestId} else multiset{}
  {
    assert (ms + [m])[..|ms|] == ms;
  }

  lemma MainSendIsNoReply(s: seq<Sent>, m: Outbound)
    ensures Messages(s + [Sent(MainLoop, m)], QueryTask) == Messages(s, QueryTask)
  {
    MessagesSnoc(s, Sent(MainLoop, m), QueryTask);
  }

  lemma MainSendKeepsQueries(c: Conn, now: nat)
    requires QueryInv(c) && c.todo != []
    ensures QueryInv(SendNext(c, now))
  {
    MainSendIsNoReply(c.sent, c.todo[0]);
    MainSendIsNoReply(c.lost, c.todo[0]);
  }

  lemma ReplyKeepsQueries(c: Conn, id: string, m: Outbound)
    requires QueryInv(c) && id in c.tasks && m.LogResult? && m.requestId == id
    ensures QueryInv(Send(c.(tasks := c.tasks - multiset{id}), QueryTask, m))
  {
    MessagesSnoc(c.sent, Sent(QueryTask, m), QueryTask);
    MessagesSnoc(c.lost, Sent(QueryTask, m), QueryTask);
    ResultsSnoc(Messages(c.sent, QueryTask), m);
    ResultsSnoc(Messages(c.lost, QueryTask), m);
  }

  function Query(e: MainEvent): Option<string> {
    if e.Handled? && e.message.LogQuery? then Some(e.message.query.requestId) else None
  }

  lemma AskedSnoc(trace: seq<MainEvent>, e: MainEvent)
    ensures AskedIn(trace + [e]) == match Query(e) case None => AskedIn(trace) case Some(id) => AskedIn(trace) + multiset{id}
  {
    assert (trace + [e])[..|trace|] == trace;
  }

  lemma OneMoreQuery(c: Conn, id: string)
    requires Accounted(c.asked, c.tasks, c.sent, c.lost, c.unanswered)
    ensures Accounted(c.asked + multiset{id}, c.tasks + multiset{id}, c.sent, c.lost, c.unanswered)
  {
  }

  lemma EventKeepsQueries(c: Conn, e: MainEvent, d: Conn)
    requires QueryInv(c) && d.trace == c.trace + [e] && d.sent == c.sent && d.lost == c.lost && d.unanswered == c.unanswered
    requires match Query(e)
             case None => d.tasks == c.tasks && d.asked == c.asked
             case Some(id) => d.tasks == c.tasks + multiset{id} && d.asked == c.asked + multiset{id}
    requires !BeforeWelcome(d.stage)
    ensures QueryInv(d)
  {
    AskedSnoc(c.trace, e);
    if Query(e).Some? { OneMoreQuery(c, Query(e).value); }
  }

  /** A step that sends, asks and answers nothing. */
  lemma SameKeepsQueries(c: Conn, d: Conn)
    requires QueryInv(c)
    requires d.asked == c.asked && d.tasks == c.tasks && d.sent == c.sent && d.lost == c.lost && d.unanswered == c.unanswered
    requires d.trace == c.trace && (BeforeWelcome(d.stage) ==> BeforeWelcome(c.stage))
    ensures QueryInv(d)
  {
  }

  lemma HandshakeKeepsQueries(c: Conn, m: IncomingMessage)
    requires QueryInv(c) && (c.stage == AwaitChallenge || c.stage == AwaitWelcome)
    ensures QueryInv(Handshake(c, m))
  {
    assert c.trace == [];
    assert c.trace + [Welcomed] == [Welcomed];
    hide QueryInv;
    var d := Handshake(c, m);
    if d.stage == FirstMetrics { EventKeepsQueries(c, Welcomed, d); } else { SameKeepsQueries(c, d); }
  }

  lemma LoopKeepsQueries(c: Conn, m: IncomingMessage)
    requires QueryInv(c) && c.stage == Steady
    ensures QueryInv(Loop(c, m))
  {
    hide QueryInv;
    EventKeepsQueries(c, Handled(m), Loop(c, m));
  }

  lemma ReadKeepsQueries(c: Conn, frame: Incoming)
    requires QueryInv(c) && Reading(c)
    ensures QueryInv(ReadFrame(c, frame))
  {
    hide QueryInv;
    match frame
    case Text(raw) =>
      match Decode(raw) {
        case Message(m) => if c.stage == Steady { LoopKeepsQueries(c, m); } else { HandshakeKeepsQueries(c, m); }
        case _ =>
      }
    case Lost(_) => SameKeepsQueries(c, ReadFrame(c, frame));
    case OtherFrame =>
  }

  lemma CheckKeepsQueries(c: Conn, force: bool, hash: Option<string>, now: nat, interval: nat)
    requires QueryInv(c) && !BeforeWelcome(c.stage)
    ensures QueryInv(Check(c, force, hash, now, interval))
  {
    hide QueryInv;
    var d := Check(c, force, hash, now, interval);
    match hash
    case None => SameKeepsQueries(c, d);
    case Some(h) => EventKeepsQueries(c, SystemChecked(h, ShouldPublish(c, force, h, now, interval), now), d);
  }

  lemma CollectKeepsQueries(c: Conn, payload: Option<string>, interval: nat)
    requires QueryInv(c)
    ensures QueryInv(Next(c, CollectMetrics(payload), interval))
  {
    hide QueryInv;
    if c.todo == [] && (c.stage == FirstMetrics || c.stage == Steady) {
      EventKeepsQueries(c, MetricsRead(payload), Next(c, CollectMetrics(payload), interval));
    }
  }

  lemma ResyncKeepsQueries(c: Conn, interval: nat)
    requires QueryInv(c) && c.stage == Steady && c.todo == []
    ensures QueryInv(Next(c, ResyncTick, interval))
  {
    hide QueryInv;
    EventKeepsQueries(c, ResyncTicked, Next(c, ResyncTick, interval));
  }

  lemma Moved(all: multiset<string>, a: multiset<string>, b: multiset<string>, d: multiset<string>, id: string)
    requires all == a + b + d && id in a
    ensures all == (a - multiset{id}) + b + (d + multiset{id})
  {
  }

  lemma FailKeepsQueries(c: Conn, id: string)
    requires QueryInv(c) && id in c.tasks
    ensures QueryInv(c.(tasks := c.tasks - multiset{id}, unanswered := c.unanswered + multiset{id}))
  {
    var s, l := Results(Messages(c.sent, QueryTask)), Results(Messages(c.lost, QueryTask));
    var t := c.tasks - multiset{id};
    Moved(c.asked, c.tasks, s + l, c.unanswered, id);
    assert c.tasks + (s + l) == c.tasks + s + l && t + (s + l) == t + s + l;
  }

  lemma StepKeepsQueries(c: Conn, s: Step, interval: nat)
    requires QueryInv(c)
    ensures QueryInv(Next(c, s, interval))
  {
    hide QueryInv;
    match s
    case Read(frame) => if Reading(c) { ReadKeepsQueries(c, frame); }
    case MainSend(now) => if c.todo != [] { MainSendKeepsQueries(c, now); }
    case TaskReply(id, records, next) => if id in c.tasks { ReplyKeepsQueries(c, id, LogResult(id, records, next)); }
    case TaskFail(id) => if id in c.tasks { FailKeepsQueries(c, id); }
    case CheckSystem(hash, now) =>
      if c.todo == [] && now >= c.clock {
        if c.stage == FirstSystemInfo { CheckKeepsQueries(c, true, hash, now, interval); }
        else if c.stage == Steady { CheckKeepsQueries(c, false, hash, now, interval); }
      }
    case CollectMetrics(payload) => CollectKeepsQueries(c, payload, interval);
    case ResyncTick => if c.stage == Steady && c.todo == [] { ResyncKeepsQueries(c, interval); }
    case _ => SameKeepsQueries(c, Next(c, s, interval));
  }

  lemma {:induction false} RunKeepsQueries(steps: seq<Step>, interval: nat)
    ensures QueryInv(Run(Fresh(), steps, interval))
  {
    if steps != [] {
      var k := |steps| - 1;
      RunKeepsQueries(steps[..k], interval);
      StepKeepsQueries(Run(Fresh(), steps[..k], interval), steps[k], interval);
    }
  }

  lemma {:induction false} NoResultsExpected(trace: seq<MainEvent>)
    ensures forall m :: m in Expected(trace) ==> !m.LogResult?
  {
    if trace != [] { NoResultsExpected(trace[..|trace| - 1]); }
  }

  lemma {:induction false} NoResults(ms: seq<Outbound>)
    requires forall m :: m in ms ==> !m.LogResult?
    ensures Results(ms) == multiset{}
  {
    if ms != [] {
      var k := |ms| - 1;
      assert ms[k] in ms;
      assert forall m :: m in ms[..k] ==> m in ms;
      NoResults(ms[..k]);
    }
  }

  /** All results on the channel, whoever sent them. */
  function AllResults(s: seq<Sent>): multiset<string> {
    Results(Messages(s, MainLoop)) + Results(Messages(s, QueryTask))
  }

  /** In every interleaving, results carry the ids of queries handled on this connection, each query
      gets at most one, and all of them once none is in flight, failed or lost. */
  lemma AtMostOneResultPerQuery(steps: seq<Step>, interval: nat)
    ensures var c := Run(Fresh(), steps, interval);
            && AllResults(c.sent) <= AskedIn(c.trace)
            && (c.tasks == c.unanswered == multiset{} && c.lost == [] ==> AllResults(c.sent) == AskedIn(c.trace))
  {
    var c := Run(Fresh(), steps, interval);
    RunKeepsQueries(steps, interval);
    MainOrderIsProgramOrder(steps, interval);
    NoResultsExpected(c.trace);
    var main := Messages(c.sent, MainLoop);
    assert forall m :: m in main ==> m in Expected(c.trace);
    NoResults(main);
  }

  // ----- system information -----

  function Hashes(ps: seq<Publication>): (r: seq<string>)
    ensures |r| == |ps| && forall i :: 0 <= i < |ps| ==> r[i] == ps[i].hash
  {
    seq(|ps|, i requires 0 <= i < |ps| => ps[i].hash)
  }

  /** The hashes of the system-info messages in the channel's history. */
  function Infos(s: seq<Sent>): seq<string> {
    if s == [] then []
    else
      var k := |s| - 1;
      Infos(s[..k]) + if s[k].message.SystemInfo? then [s[k].message.hash] else []
  }

  predicate NoInfo(ms: seq<Outbound>) { forall i :: 0 <= i < |ms| ==> !ms[i].SystemInfo? }

  predicate BeforeLoop(s: Stage) { BeforeWelcome(s) || s.FirstMetrics? || s.FirstSystemInfo? }

  /** Equal hashes in a row are at least the interval apart. */
  predicate Spaced(ps: seq<Publication>, interval: nat) {
    forall i :: 0 <= i < |ps| - 1 && ps[i].hash == ps[i + 1].hash ==> ps[i + 1].at >= ps[i].at + interval
  }

  predicate InfoInv(c: Conn, interval: nat) {
    && Infos(c.sent) == Hashes(c.published)
    && Spaced(c.published, interval)
    && (if c.published == [] then c.lastHash == None && c.lastPublished == None
        else var p := c.published[|c.published| - 1]; c.lastHash == Some(p.hash) && c.lastPublished == Some(p.at) && p.at <= c.clock)
    && (BeforeLoop(c.stage) ==> c.published == [] && NoInfo(c.todo))
    && (NoInfo(c.todo) || (|c.todo| == 1 && c.todo[0].SystemInfo? && MayPublish(c, c.todo[0].hash, interval)))
  }

  /** A pending publication differs from the last one or is due. */
  predicate MayPublish(c: Conn, hash: string, interval: nat) {
    c.lastHash != Some(hash) || c.lastPublished == None || c.clock >= c.lastPublished.value + interval
  }

  lemma InfosSnoc(s: seq<Sent>, x: Sent)
    ensures Infos(s + [x]) == Infos(s) + if x.message.SystemInfo? then [x.message.hash] else []
  {
    assert (s + [x])[..|s|] == s;
  }

  lemma SpacedSnoc(ps: seq<Publication>, p: Publication, interval: nat)
    requires Spaced(ps, interval)
    requires ps != [] && ps[|ps| - 1].hash == p.hash ==> p.at >= ps[|ps| - 1].at + interval
    ensures Spaced(ps + [p], interval)
  {
    var qs := ps + [p];
    forall i | 0 <= i < |qs| - 1 && qs[i].hash == qs[i + 1].hash ensures qs[i + 1].at >= qs[i].at + interval {
      if i + 1 < |ps| { assert ps[i].hash == ps[i + 1].hash; }
    }
  }

  lemma MainSendKeepsInfo(c: Conn, now: nat, interval: nat)
    requires InfoInv(c, interval) && c.todo != [] && now >= c.clock
    ensures InfoInv(SendNext(c, now), interval)
  {
    var m, d := c.todo[0], SendNext(c, now);
    InfosSnoc(c.sent, Sent(MainLoop, m));
    if m.SystemInfo? {
      assert d.todo == [];
      if c.writerAlive {
        assert Hashes(d.published) == Hashes(c.published) + [m.hash];
        SpacedSnoc(c.published, Publication(m.hash, now), interval);
      }
    } else {
      assert NoInfo(d.todo) by { forall i | 0 <= i < |d.todo| ensures !d.todo[i].SystemInfo? { assert d.todo[i] == c.todo[i + 1]; } }
    }
  }

  lemma ReplyKeepsInfo(c: Conn, id: string, m: Outbound, interval: nat)
    requires InfoInv(c, interval) && m.LogResult?
    ensures InfoInv(Send(c.(tasks := c.tasks - multiset{id}), QueryTask, m), interval)
  {
    InfosSnoc(c.sent, Sent(QueryTask, m));
  }

  /** A step that publishes nothing, and leaves what is to be sent alone or replaces it by no publication. */
  lemma SameKeepsInfo(c: Conn, d: Conn, interval: nat)
    requires InfoInv(c, interval)
    requires d.sent == c.sent && d.published == c.published && d.clock == c.clock
    requires d.lastHash == c.lastHash && d.lastPublished == c.lastPublished
    requires (d.todo == c.todo || NoInfo(d.todo)) && (BeforeLoop(d.stage) ==> BeforeLoop(c.stage))
    ensures InfoInv(d, interval)
  {
  }

  lemma RepliesHaveNoInfo(m: IncomingMessage)
    ensures NoInfo(Replies(m))
  {
  }

  lemma MessageKeepsInfo(c: Conn, m: IncomingMessage, interval: nat)
    requires InfoInv(c, interval) && Reading(c)
    ensures InfoInv(if c.stage == Steady then Loop(c, m) else Handshake(c, m), interval)
  {
    hide InfoInv;
    RepliesHaveNoInfo(m);
    SameKeepsInfo(c, if c.stage == Steady then Loop(c, m) else Handshake(c, m), interval);
  }

  lemma ReadKeepsInfo(c: Conn, frame: Incoming, interval: nat)
    requires InfoInv(c, interval) && Reading(c)
    ensures InfoInv(ReadFrame(c, frame), interval)
  {
    hide InfoInv;
    match frame
    case Text(raw) =>
      match Decode(raw) {
        case Message(m) => MessageKeepsInfo(c, m, interval);
        case _ =>
      }
    case Lost(_) => SameKeepsInfo(c, ReadFrame(c, frame), interval);
    case OtherFrame =>
  }

  lemma FirstCheckKeepsInfo(c: Conn, hash: Option<string>, now: nat, interval: nat)
    requires InfoInv(c, interval) && c.todo == [] && now >= c.clock && c.stage == FirstSystemInfo
    ensures InfoInv(Check(c, true, hash, now, interval), interval)
  {
  }

  lemma CheckKeepsInfo(c: Conn, hash: Option<string>, now: nat, interval: nat)
    requires InfoInv(c, interval) && c.todo == [] && now >= c.clock
    ensures InfoInv(Check(c, false, hash, now, interval), interval)
  {
  }

  lemma TickKeepsInfo(c: Conn, s: Step, interval: nat)
    requires InfoInv(c, interval) && (s.CollectMetrics? || s.ResyncTick?) && c.todo == []
    ensures InfoInv(Next(c, s, interval), interval)
  {
    hide InfoInv;
    SameKeepsInfo(c, Next(c, s, interval), interval);
  }

  lemma StepKeepsInfo(c: Conn, s: Step, interval: nat)
    requires InfoInv(c, interval)
    ensures InfoInv(Next(c, s, interval), interval)
  {
    hide InfoInv;
    match s
    case Read(frame) => if Reading(c) { ReadKeepsInfo(c, frame, interval); }
    case MainSend(now) => if c.todo != [] && now >= c.clock { MainSendKeepsInfo(c, now, interval); }
    case TaskReply(id, records, next) => if id in c.tasks { ReplyKeepsInfo(c, id, LogResult(id, records, next), interval); }
    case CheckSystem(hash, now) =>
      if c.todo == [] && now >= c.clock {
        if c.stage == FirstSystemInfo { FirstCheckKeepsInfo(c, hash, now, interval); }
        else if c.stage == Steady { CheckKeepsInfo(c, hash, now, interval); }
      }
    case CollectMetrics(_) => if c.todo == [] { TickKeepsInfo(c, s, interval); }
    case ResyncTick => if c.todo == [] { TickKeepsInfo(c, s, interval); }
    case _ => SameKeepsInfo(c, Next(c, s, interval), interval);
  }

  lemma {:induction false} RunKeepsInfo(steps: seq<Step>, interval: nat)
    ensures InfoInv(Run(Fresh(), steps, interval), interval)
  {
    if steps != [] {
      var k := |steps| - 1;
      RunKeepsInfo(steps[..k], interval);
      StepKeepsInfo(Run(Fresh(), steps[..k], interval), steps[k], interval);
    }
  }

  /** In every run, two system-info frames in a row with equal hashes are at least the republish
      interval apart. (Only the first frame of a connection is forced.) */
  lemma RepublicationIsSpaced(steps: seq<Step>, interval: nat)
    ensures var c := Run(Fresh(), steps, interval);
            && Infos(c.sent) == Hashes(c.published)
            && Spaced(c.published, interval)
  {
    RunKeepsInfo(steps, interval);
  }

  /** The hash of the last payload collected. */
  function LastChecked(trace: seq<MainEvent>): Option<string> {
    if trace == [] then None
    else
      var k := |trace| - 1;
      if trace[k].SystemChecked? then Some(trace[k].hash) else LastChecked(trace[..k])
  }

  predicate Publishing(todo: seq<Outbound>) { todo != [] && todo[0].SystemInfo? }

  /** While the writer lives, the remembered hash, or the one about to be sent, is the last collected. */
  predicate CheckInv(c: Conn) {
    && (BeforeWelcome(c.stage) ==> c.trace == [])
    && (c.trace == [] ==> c.lastHash == None && c.todo == [])
    && (forall i :: 1 <= i < |c.todo| ==> !c.todo[i].SystemInfo?)
    && (c.writerAlive ==> LastChecked(c.trace) == if Publishing(c.todo) then Some(c.todo[0].hash) else c.lastHash)
  }

  lemma LastCheckedSnoc(trace: seq<MainEvent>, e: MainEvent)
    ensures LastChecked(trace + [e]) == if e.SystemChecked? then Some(e.hash) else LastChecked(trace)
  {
    assert (trace + [e])[..|trace|] == trace;
  }

  lemma SameKeepsCheck(c: Conn, d: Conn)
    requires CheckInv(c) && d.trace == c.trace && d.todo == c.todo && d.lastHash == c.lastHash
    requires (d.writerAlive ==> c.writerAlive) && (BeforeWelcome(d.stage) ==> BeforeWelcome(c.stage))
    ensures CheckInv(d)
  {
  }

  lemma EventKeepsCheck(c: Conn, e: MainEvent, d: Conn)
    requires CheckInv(c) && c.todo == [] && !e.SystemChecked? && d.trace == c.trace + [e] && NoInfo(d.todo)
    requires d.lastHash == c.lastHash && d.writerAlive == c.writerAlive && !BeforeWelcome(d.stage)
    ensures CheckInv(d)
  {
    LastCheckedSnoc(c.trace, e);
  }

  lemma MainSendKeepsCheck(c: Conn, now: nat)
    requires CheckInv(c) && c.todo != []
    ensures CheckInv(SendNext(c, now))
  {
    var d := SendNext(c, now);
    assert forall i :: 0 <= i < |d.todo| ==> d.todo[i] == c.todo[i + 1];
  }

  lemma CheckKeepsCheck(c: Conn, force: bool, hash: Option<string>, now: nat, interval: nat)
    requires CheckInv(c) && c.todo == [] && !BeforeWelcome(c.stage)
    ensures CheckInv(Check(c, force, hash, now, interval))
  {
    if hash.Some? {
      LastCheckedSnoc(c.trace, SystemChecked(hash.value, ShouldPublish(c, force, hash.value, now, interval), now));
    }
  }

  lemma HandshakeKeepsCheck(c: Conn, m: IncomingMessage)
    requires CheckInv(c) && (c.stage == AwaitChallenge || c.stage == AwaitWelcome)
    ensures CheckInv(Handshake(c, m))
  {
    assert c.trace == [] && c.todo == [];
    assert c.trace + [Welcomed] == [Welcomed];
    hide CheckInv;
    var d := Handshake(c, m);
    if d.stage == FirstMetrics { EventKeepsCheck(c, Welcomed, d); } else { SameKeepsCheck(c, d); }
  }

  lemma ReadKeepsCheck(c: Conn, frame: Incoming)
    requires CheckInv(c) && Reading(c)
    ensures CheckInv(ReadFrame(c, frame))
  {
    hide CheckInv;
    match frame
    case Text(raw) =>
      match Decode(raw) {
        case Message(m) =>
          if c.stage == Steady {
            RepliesHaveNoInfo(m);
            EventKeepsCheck(c, Handled(m), Loop(c, m));
          } else {
            HandshakeKeepsCheck(c, m);
          }
        case _ =>
      }
    case Lost(_) => SameKeepsCheck(c, ReadFrame(c, frame));
    case OtherFrame =>
  }

  lemma TickKeepsCheck(c: Conn, s: Step, interval: nat)
    requires CheckInv(c) && (s.CollectMetrics? || s.ResyncTick?)
    ensures CheckInv(Next(c, s, interval))
  {
    hide CheckInv;
    if c.todo == [] && (c.stage == Steady || (c.stage == FirstMetrics && s.CollectMetrics?)) {
      EventKeepsCheck(c, if s.ResyncTick? then ResyncTicked else MetricsRead(s.payload), Next(c, s, interval));
    }
  }

  lemma StepKeepsCheck(c: Conn, s: Step, interval: nat)
    requires CheckInv(c)
    ensures CheckInv(Next(c, s, interval))
  {
    hide CheckInv;
    match s
    case Read(frame) => if Reading(c) { ReadKeepsCheck(c, frame); }
    case MainSend(now) => if c.todo != [] { MainSendKeepsCheck(c, now); }
    case CheckSystem(hash, now) =>
      if c.todo == [] && now >= c.clock {
        if c.stage == FirstSystemInfo { CheckKeepsCheck(c, true, hash, now, interval); }
        else if c.stage == Steady { CheckKeepsCheck(c, false, hash, now, interval); }
      }
    case CollectMetrics(_) => TickKeepsCheck(c, s, interval);
    case ResyncTick => TickKeepsCheck(c, s, interval);
    case _ => SameKeepsCheck(c, Next(c, s, interval));
  }

  lemma {:induction false} RunKeepsCheck(steps: seq<Step>, interval: nat)
    ensures CheckInv(Run(Fresh(), steps, interval))
  {
    if steps != [] {
      var k := |steps| - 1;
      RunKeepsCheck(steps[..k], interval);
      StepKeepsCheck(Run(Fresh(), steps[..k], interval), steps[k], interval);
    }
  }

  function LastInfo(s: seq<Sent>): Option<string> {
    var infos := Infos(s);
    if infos == [] then None else Some(infos[|infos| - 1])
  }

  function LastTime(ps: seq<Publication>): Option<nat> {
    if ps == [] then None else Some(ps[|ps| - 1].at)
  }

  /** In every interleaving, whenever the main task has nothing left to send: the last system-info frame
      queued carries the hash of the last payload collected, as long as the writer lives; and dead or
      alive, the hash and the time the session remembers are those of its last frame, so checks that
      fail change neither. */
  lemma CheckedIsCurrent(steps: seq<Step>, interval: nat)
    requires Run(Fresh(), steps, interval).todo == []
    ensures var c := Run(Fresh(), steps, interval);
            && c.lastHash == LastInfo(c.sent)
            && Infos(c.sent) == Hashes(c.published) && c.lastPublished == LastTime(c.published)
            && (c.writerAlive ==> LastInfo(c.sent) == LastChecked(c.trace))
  {
    RunKeepsInfo(steps, interval);
    RunKeepsCheck(steps, interval);
    hide Run, Fresh, Infos, LastChecked, Spaced;
  }

  // ----- all connections of the agent -----

  /** A new connection may start once the main task of the last one is over; the tasks of earlier
      connections may go on. */
  datatype AgentStep = Reconnected | Act(conn: nat, step: Step)

  predicate MainTaskStep(s: Step) { !s.WriterSend? && !s.WriterFail? && !s.TaskReply? && !s.TaskFail? }

  function AgentNext(cs: seq<Conn>, a: AgentStep, interval: nat): seq<Conn> {
    match a
    case Reconnected => if cs == [] || cs[|cs| - 1].stage.Over? then cs + [Fresh()] else cs
    case Act(i, s) =>
      if i < |cs| && (MainTaskStep(s) ==> i == |cs| - 1) then cs[i := Next(cs[i], s, interval)] else cs
  }

  function AgentRun(acts: seq<AgentStep>, interval: nat): seq<Conn> {
    if acts == [] then []
    else AgentNext(AgentRun(acts[..|acts| - 1], interval), acts[|acts| - 1], interval)
  }

  /** Every connection of the agent is in a state some run of a single connection reaches. */
  lemma {:induction false} EachConnectionIsARun(acts: seq<AgentStep>, interval: nat, i: nat) returns (steps: seq<Step>)
    requires i < |AgentRun(acts, interval)|
    ensures AgentRun(acts, interval)[i] == Run(Fresh(), steps, interval)
    decreases |acts|
  {
    var k := |acts| - 1;
    var before := AgentRun(acts[..k], interval);
    if i >= |before| {
      steps := [];
    } else {
      steps := EachConnectionIsARun(acts[..k], interval, i);
      if acts[k].Act? && acts[k].conn == i && (MainTaskStep(acts[k].step) ==> i == |before| - 1) {
        var more := steps + [acts[k].step];
        assert more[..|steps|] == steps;
        steps := more;
      }
    }
  }

  /** The agent goes on: after a connection is over it starts a new one; the last connection takes any
      step, and every earlier one those of its writer and tasks. */
  lemma AgentGoesOn(acts: seq<AgentStep>, interval: nat, i: nat, s: Step)
    ensures var cs := AgentRun(acts, interval);
            && (cs == [] || cs[|cs| - 1].stage.Over? ==> AgentRun(acts + [Reconnected], interval) == cs + [Fresh()])
            && (i < |cs| && (i == |cs| - 1 || s.WriterSend? || s.WriterFail? || s.TaskReply? || s.TaskFail?) ==>
                  AgentRun(acts + [Act(i, s)], interval) == cs[i := Next(cs[i], s, interval)])
  {
    hide Next, Fresh;
    assert (acts + [Reconnected])[..|acts|] == acts && (acts + [Act(i, s)])[..|acts|] == acts;
  }

  /** Only the last connection has a main task: all earlier ones are over. */
  lemma {:induction false} OneMainTask(acts: seq<AgentStep>, interval: nat, i: nat)
    requires i + 1 < |AgentRun(acts, interval)|
    ensures AgentRun(acts, interval)[i].stage.Over?
  {
    var k := |acts| - 1;
    var before, a := AgentRun(acts[..k], interval), acts[k];
    if i + 1 < |before| {
      OneMainTask(acts[..k], interval, i);
      if a.Act? { StaysOver(before[i], a.step, interval); }
    }
    hide Next;
  }

  lemma StaysOver(c: Conn, s: Step, interval: nat)
    requires c.stage.Over?
    ensures Next(c, s, interval).stage.Over?
  {
  }

  lemma EventsSoFar(steps: seq<Step>, interval: nat)
    ensures var c := Run(Fresh(), steps, interval);
            && EventCount(Messages(c.sent, MainLoop)) <= DesiredCount(c.trace)
            && (c.todo == [] && c.lost == [] ==> EventCount(Messages(c.sent, MainLoop)) == DesiredCount(c.trace))
  {
    var c := Run(Fresh(), steps, interval);
    hide Run, Fresh;
    MainOrderIsProgramOrder(steps, interval);
    OneEventPerDesired(c.trace);
    EventsOfPrefix(Messages(c.sent, MainLoop), Expected(c.trace));
  }

  lemma StatusSent(steps: seq<Step>, interval: nat, s: ObjectStatus)
    requires Status(s) in Messages(Run(Fresh(), steps, interval).sent, MainLoop)
    ensures FromOwnDesired(Run(Fresh(), steps, interval).trace, s)
  {
    var c := Run(Fresh(), steps, interval);
    hide Run, Fresh;
    MainOrderIsProgramOrder(steps, interval);
    assert Status(s) in Expected(c.trace);
    StatusesAreOwn(c.trace, s);
  }

  /** Whatever earlier connections did and still do: a status on a connection comes from a desired
      state handled on that connection, and there is one event for each. */
  lemma ConnectionsDoNotMix(acts: seq<AgentStep>, interval: nat, i: nat, s: ObjectStatus)
    requires i < |AgentRun(acts, interval)|
    ensures var c := AgentRun(acts, interval)[i];
            && (Status(s) in Messages(c.sent, MainLoop) ==> FromOwnDesired(c.trace, s))
            && EventCount(Messages(c.sent, MainLoop)) <= DesiredCount(c.trace)
            && (c.todo == [] && c.lost == [] ==> EventCount(Messages(c.sent, MainLoop)) == DesiredCount(c.trace))
  {
    var c := AgentRun(acts, interval)[i];
    var steps := EachConnectionIsARun(acts, interval, i);
    EventsSoFar(steps, interval);
    if Status(s) in Messages(c.sent, MainLoop) { StatusSent(steps, interval, s); }
  }
}
