/** What a connection answers, said over the fields of what came in; how it ends; and how current it keeps
    its server. */
module ConnectionAnswers {
  import opened Text
  import opened Protocol
  import opened Dispatch
  import opened Connection
  import opened ConnectionFacts
  import opened ConnectionReports

  // ----- every event of the main task is answered, in every run -----

  predicate IsDesired(e: MainEvent) { e.Handled? && e.message.Desired? }

  /** `s` is the last desired state handled. */
  ghost predicate IsLatest(trace: seq<MainEvent>, s: NodeDesiredState) {
    exists j :: 0 <= j < |trace| && trace[j] == Handled(Desired(s)) && forall i :: j < i < |trace| ==> !IsDesired(trace[i])
  }

  predicate NoneDesired(trace: seq<MainEvent>) { forall i :: 0 <= i < |trace| ==> !IsDesired(trace[i]) }

  /** What one event is answered with, given everything before it. */
  ghost predicate CalledFor(before: seq<MainEvent>, e: MainEvent, ms: seq<Outbound>) {
    match e
    case Welcomed => ms == [LogCapabilities]
    case MetricsRead(payload) => ms == (match payload case None => [] case Some(p) => [Metrics(p)])
    case SystemChecked(hash, publish, _) => ms == if publish then [SystemInfo(hash)] else []
    case Handled(m) => AnsweredBy(m, ms)
    case ResyncTicked => if NoneDesired(before) then ms == [] else exists s :: IsLatest(before, s) && Snapshot(ms, s)
  }

  lemma {:induction false} LatestIsLast(trace: seq<MainEvent>)
    ensures match LatestDesired(trace) case None => NoneDesired(trace) case Some(s) => IsLatest(trace, s) && !NoneDesired(trace)
  {
    if trace != [] {
      var k := |trace| - 1;
      LatestIsLast(trace[..k]);
      assert trace == trace[..k] + [trace[k]];
      if IsDesired(trace[k]) {
        assert trace[k] == Handled(Desired(trace[k].message.state));
      } else if LatestDesired(trace).Some? {
        var s := LatestDesired(trace).value;
        var j :| 0 <= j < k && trace[..k][j] == Handled(Desired(s)) && forall i :: j < i < k ==> !IsDesired(trace[..k][i]);
        assert trace[j] == Handled(Desired(s));
        forall i | j < i <= k ensures !IsDesired(trace[i]) { assert i < k ==> trace[i] == trace[..k][i]; }
        assert IsDesired(trace[j]);
      }
    }
  }

  lemma EmitsWhatIsCalledFor(before: seq<MainEvent>, e: MainEvent)
    ensures CalledFor(before, e, Emits(before, e))
  {
    match e
    case Handled(m) => RepliesAnswer(m);
    case ResyncTicked =>
      LatestIsLast(before);
      match LatestDesired(before) { case None => case Some(s) => ResyncIsSnapshot(s); }
    case _ =>
  }

  /** Cut at `cuts`, the messages are the answers to the events, one piece each. */
  ghost predicate Pieces(trace: seq<MainEvent>, ms: seq<Outbound>, cuts: seq<nat>) {
    && |cuts| == |trace| + 1 && cuts[0] == 0 && cuts[|trace|] == |ms|
    && (forall k :: 0 <= k < |trace| ==> PieceAt(trace, ms, cuts, k))
  }

  ghost predicate PieceAt(trace: seq<MainEvent>, ms: seq<Outbound>, cuts: seq<nat>, k: nat)
    requires k < |trace| && |cuts| == |trace| + 1
  {
    cuts[k] <= cuts[k + 1] <= |ms| && CalledFor(trace[..k], trace[k], ms[cuts[k]..cuts[k + 1]])
  }

  lemma PiecesSnoc(trace: seq<MainEvent>, ms: seq<Outbound>, cuts: seq<nat>, e: MainEvent, more: seq<Outbound>)
    requires Pieces(trace, ms, cuts) && CalledFor(trace, e, more)
    ensures Pieces(trace + [e], ms + more, cuts + [|ms + more|])
  {
    hide CalledFor;
    var t, all, cs := trace + [e], ms + more, cuts + [|ms + more|];
    forall k | 0 <= k < |t| ensures PieceAt(t, all, cs, k) {
      if k < |trace| {
        assert PieceAt(trace, ms, cuts, k);
        assert t[..k] == trace[..k] && all[cs[k]..cs[k + 1]] == ms[cuts[k]..cuts[k + 1]];
      } else {
        assert t[..k] == trace && all[|ms|..] == more && all[cs[k]..cs[k + 1]] == more;
      }
    }
  }

  lemma {:induction false} ExpectedInPieces(trace: seq<MainEvent>) returns (cuts: seq<nat>)
    ensures Pieces(trace, Expected(trace), cuts)
  {
    if trace == [] {
      cuts := [0];
    } else {
      var k := |trace| - 1;
      cuts := ExpectedInPieces(trace[..k]);
      EmitsWhatIsCalledFor(trace[..k], trace[k]);
      PiecesSnoc(trace[..k], Expected(trace[..k]), cuts, trace[k], Emits(trace[..k], trace[k]));
      assert trace == trace[..k] + [trace[k]];
      cuts := cuts + [|Expected(trace)|];
    }
  }

  /** In every interleaving: what the main task has sent, lost and still has to send falls into one piece
      per event, in order. A desired state's piece is one status per runtime and workload and one event;
      a resync tick's the statuses of the latest desired state, or nothing. With nothing lost and nothing
      left to send, that is what entered the channel. */
  lemma EveryEventIsAnswered(steps: seq<Step>, interval: nat) returns (cuts: seq<nat>)
    ensures var c := Run(Fresh(), steps, interval);
            && Pieces(c.trace, Messages(c.sent, MainLoop) + Messages(c.lost, MainLoop) + c.todo, cuts)
            && (c.lost == [] && c.todo == [] ==> Pieces(c.trace, Messages(c.sent, MainLoop), cuts))
  {
    var c := Run(Fresh(), steps, interval);
    RunKeepsMain(steps, interval);
    cuts := ExpectedInPieces(c.trace);
    hide Pieces, Expected, Run;
    var ms := Messages(c.sent, MainLoop);
    assert ms + [] == ms;
  }

  // ----- every message after the welcome is handled -----

  /** The messages of the events, in order. */
  function HandledIn(trace: seq<MainEvent>): seq<IncomingMessage> {
    if trace == [] then []
    else
      var k := |trace| - 1;
      HandledIn(trace[..k]) + if trace[k].Handled? then [trace[k].message] else []
  }

  /** The messages decoded are those of the handshake, of which a welcome is the last, and those handled. */
  ghost predicate HeardInv(c: Conn) {
    && (BeforeWelcome(c.stage) ==> c.trace == [])
    && (c.trace != [] ==> AfterWelcome(c))
  }

  predicate WelcomeThen(heard: seq<IncomingMessage>, handled: seq<IncomingMessage>, n: nat) {
    1 < n <= |heard| && heard[n - 1].Welcome? && heard[n..] == handled
  }

  ghost predicate AfterWelcome(c: Conn) { exists n: nat :: WelcomeThen(c.heard, HandledIn(c.trace), n) }

  lemma HandledSnoc(trace: seq<MainEvent>, e: MainEvent)
    ensures HandledIn(trace + [e]) == HandledIn(trace) + if e.Handled? then [e.message] else []
  {
    assert (trace + [e])[..|trace|] == trace;
  }

  lemma OneMoreHeard(heard: seq<IncomingMessage>, handled: seq<IncomingMessage>, n: nat, m: IncomingMessage)
    requires WelcomeThen(heard, handled, n)
    ensures WelcomeThen(heard + [m], handled + [m], n)
  {
  }

  lemma WelcomeHeard(heard: seq<IncomingMessage>, m: IncomingMessage)
    requires HeardChallenge(heard) && m.Welcome?
    ensures WelcomeThen(heard + [m], [], |heard| + 1)
  {
  }

  lemma HandlesOneMore(c: Conn, m: IncomingMessage)
    requires HeardInv(c) && c.trace != []
    ensures HeardInv(Loop(c, m))
  {
    var n: nat :| WelcomeThen(c.heard, HandledIn(c.trace), n);
    OneMoreHeard(c.heard, HandledIn(c.trace), n, m);
    HandledSnoc(c.trace, Handled(m));
    hide WelcomeThen, HandledIn, Replies;
    assert WelcomeThen(Loop(c, m).heard, HandledIn(Loop(c, m).trace), n);
  }

  lemma OnlyWelcomed()
    ensures HandledIn([Welcomed]) == []
  {
    assert [Welcomed][..0] == [];
  }

  lemma WelcomeIsLast(c: Conn, m: IncomingMessage, d: Conn)
    requires HeardChallenge(c.heard) && m.Welcome?
    requires d.trace == [Welcomed] && d.heard == c.heard + [m] && !BeforeWelcome(d.stage)
    ensures HeardInv(d)
  {
    WelcomeHeard(c.heard, m);
    OnlyWelcomed();
    hide WelcomeThen, HeardChallenge, HandledIn;
    assert WelcomeThen(d.heard, HandledIn(d.trace), |c.heard| + 1);
  }

  lemma EventKeepsHeard(c: Conn, e: MainEvent, d: Conn)
    requires HeardInv(c) && c.trace != [] && d.trace == c.trace + [e] && d.heard == c.heard && !e.Handled?
    requires !BeforeWelcome(d.stage)
    ensures HeardInv(d)
  {
    var n: nat :| WelcomeThen(c.heard, HandledIn(c.trace), n);
    HandledSnoc(c.trace, e);
    hide WelcomeThen, HandledIn;
    assert WelcomeThen(d.heard, HandledIn(d.trace), n);
  }

  lemma SameKeepsHeard(c: Conn, d: Conn)
    requires HeardInv(c) && d.trace == c.trace && (d.heard == c.heard || c.trace == [])
    requires BeforeWelcome(d.stage) ==> BeforeWelcome(c.stage)
    ensures HeardInv(d)
  {
  }

  lemma HandshakeKeepsHeard(c: Conn, m: IncomingMessage)
    requires HeardInv(c) && WireInv(c) && (c.stage == AwaitChallenge || c.stage == AwaitWelcome)
    ensures HeardInv(Handshake(c, m))
  {
    assert c.trace == [] && (c.stage == AwaitWelcome ==> HeardChallenge(c.heard));
    hide WireInv, HeardChallenge;
    var d := Handshake(c, m);
    hide HeardInv, HandledIn;
    if d.stage == FirstMetrics { WelcomeIsLast(c, m, d); } else { SameKeepsHeard(c, d); }
  }

  lemma ReadKeepsHeard(c: Conn, frame: Incoming)
    requires HeardInv(c) && WireInv(c) && Reading(c)
    ensures HeardInv(ReadFrame(c, frame))
  {
    assert c.stage == Steady ==> c.trace != [];
    hide WireInv, AfterWelcome;
    match frame
    case Text(raw) =>
      match Decode(raw) {
        case Message(m) => if c.stage == Steady { HandlesOneMore(c, m); } else { HandshakeKeepsHeard(c, m); }
        case _ =>
      }
    case Lost(_) => SameKeepsHeard(c, ReadFrame(c, frame));
    case OtherFrame =>
  }

  lemma TickKeepsHeard(c: Conn, s: Step, interval: nat)
    requires HeardInv(c) && WireInv(c) && (s.CollectMetrics? || s.ResyncTick?)
    ensures HeardInv(Next(c, s, interval))
  {
    assert c.stage == Steady || c.stage == FirstMetrics ==> c.trace != [];
    hide WireInv, HeardInv;
    if c.todo == [] && (c.stage == Steady || (c.stage == FirstMetrics && s.CollectMetrics?)) {
      EventKeepsHeard(c, if s.ResyncTick? then ResyncTicked else MetricsRead(s.payload), Next(c, s, interval));
    }
  }

  lemma CheckKeepsHeard(c: Conn, force: bool, hash: Option<string>, now: nat, interval: nat)
    requires HeardInv(c) && c.trace != []
    ensures HeardInv(Check(c, force, hash, now, interval))
  {
    hide HeardInv;
    var d := Check(c, force, hash, now, interval);
    match hash
    case None => SameKeepsHeard(c, d);
    case Some(h) => EventKeepsHeard(c, SystemChecked(h, ShouldPublish(c, force, h, now, interval), now), d);
  }

  lemma StepKeepsHeard(c: Conn, s: Step, interval: nat)
    requires HeardInv(c) && WireInv(c)
    ensures HeardInv(Next(c, s, interval))
  {
    assert c.stage == Steady || c.stage == FirstSystemInfo ==> c.trace != [];
    hide WireInv, HeardInv;
    match s
    case Read(frame) => if Reading(c) { ReadKeepsHeard(c, frame); }
    case CheckSystem(hash, now) =>
      if c.todo == [] && now >= c.clock {
        if c.stage == FirstSystemInfo { CheckKeepsHeard(c, true, hash, now, interval); }
        else if c.stage == Steady { CheckKeepsHeard(c, false, hash, now, interval); }
      }
    case CollectMetrics(_) => TickKeepsHeard(c, s, interval);
    case ResyncTick => TickKeepsHeard(c, s, interval);
    case _ => SameKeepsHeard(c, Next(c, s, interval));
  }

  lemma {:induction false} RunKeepsHeard(steps: seq<Step>, interval: nat)
    ensures HeardInv(Run(Fresh(), steps, interval))
  {
    if steps != [] {
      var k := |steps| - 1;
      RunKeepsHeard(steps[..k], interval);
      RunKeepsWire(steps[..k], interval);
      hide HeardInv, WireInv;
      StepKeepsHeard(Run(Fresh(), steps[..k], interval), steps[k], interval);
    }
  }

  /** In every run the messages decoded after the welcome are those handled, in order. */
  lemma EveryMessageIsHandled(steps: seq<Step>, interval: nat)
    ensures var c := Run(Fresh(), steps, interval); c.trace != [] ==> AfterWelcome(c)
  {
    RunKeepsHeard(steps, interval);
  }

  // ----- how a session ends -----

  /** A goaway is the last message handled, and the session ends with its delay; no other ending has one,
      and none leaves anything unsent. */
  predicate GoawayInv(c: Conn) {
    && (c.stage.Over? ==> c.todo == [])
    && (forall i :: 0 <= i < |c.trace| && c.trace[i].Handled? && c.trace[i].message.Goaway? ==>
          i == |c.trace| - 1 && c.stage == Over(Again(Some(c.trace[i].message.retryAfterMs))))
    && (c.stage.Over? && c.stage.ending.Again? ==>
          c.trace != [] && c.trace[|c.trace| - 1].Handled? && c.trace[|c.trace| - 1].message.Goaway?)
  }

  lemma SameKeepsGoaway(c: Conn, d: Conn)
    requires GoawayInv(c) && d.trace == c.trace
    requires d.stage == c.stage || (!c.stage.Over? && (d.stage.Over? ==> !d.stage.ending.Again?))
    requires d.stage.Over? ==> d.todo == []
    ensures GoawayInv(d)
  {
  }

  lemma EventKeepsGoaway(c: Conn, e: MainEvent, d: Conn)
    requires GoawayInv(c) && !c.stage.Over? && d.trace == c.trace + [e]
    requires if e.Handled? && e.message.Goaway? then d.stage == Over(Again(Some(e.message.retryAfterMs))) && d.todo == []
             else !d.stage.Over?
    ensures GoawayInv(d)
  {
  }

  lemma ReadKeepsGoaway(c: Conn, frame: Incoming)
    requires GoawayInv(c) && Reading(c) && (c.stage != Steady ==> c.trace == []) && c.todo == []
    ensures GoawayInv(ReadFrame(c, frame))
  {
    hide GoawayInv, Statuses, StatusesOf;
    match frame
    case Text(raw) =>
      match Decode(raw) {
        case Message(m) =>
          if c.stage == Steady {
            EventKeepsGoaway(c, Handled(m), Loop(c, m));
          } else {
            var d := Handshake(c, m);
            if d.stage == FirstMetrics {
              assert c.trace + [Welcomed] == [Welcomed];
              EventKeepsGoaway(c, Welcomed, d);
            } else {
              SameKeepsGoaway(c, d);
            }
          }
        case _ =>
      }
    case Lost(_) => SameKeepsGoaway(c, ReadFrame(c, frame));
    case OtherFrame =>
  }

  lemma TickKeepsGoaway(c: Conn, s: Step, interval: nat)
    requires GoawayInv(c) && (s.CollectMetrics? || s.ResyncTick?)
    ensures GoawayInv(Next(c, s, interval))
  {
    hide GoawayInv, ResyncReplies;
    if c.todo == [] && (c.stage == Steady || (c.stage == FirstMetrics && s.CollectMetrics?)) {
      EventKeepsGoaway(c, if s.ResyncTick? then ResyncTicked else MetricsRead(s.payload), Next(c, s, interval));
    }
  }

  lemma CheckKeepsGoaway(c: Conn, force: bool, hash: Option<string>, now: nat, interval: nat)
    requires GoawayInv(c) && !c.stage.Over?
    ensures GoawayInv(Check(c, force, hash, now, interval))
  {
    hide GoawayInv;
    var d := Check(c, force, hash, now, interval);
    match hash
    case None => SameKeepsGoaway(c, d);
    case Some(h) => EventKeepsGoaway(c, SystemChecked(h, ShouldPublish(c, force, h, now, interval), now), d);
  }

  lemma StepKeepsGoaway(c: Conn, s: Step, interval: nat)
    requires GoawayInv(c) && WireInv(c)
    ensures GoawayInv(Next(c, s, interval))
  {
    assert BeforeWelcome(c.stage) ==> c.trace == [] && c.todo == [];
    assert c.stage.Over? ==> c.todo == [];
    hide GoawayInv, WireInv;
    match s
    case Read(frame) => if Reading(c) { ReadKeepsGoaway(c, frame); }
    case CheckSystem(hash, now) =>
      if c.todo == [] && now >= c.clock {
        if c.stage == FirstSystemInfo { CheckKeepsGoaway(c, true, hash, now, interval); }
        else if c.stage == Steady { CheckKeepsGoaway(c, false, hash, now, interval); }
      }
    case CollectMetrics(_) => TickKeepsGoaway(c, s, interval);
    case ResyncTick => TickKeepsGoaway(c, s, interval);
    case _ => SameKeepsGoaway(c, Next(c, s, interval));
  }

  lemma {:induction false} RunKeepsGoaway(steps: seq<Step>, interval: nat)
    ensures GoawayInv(Run(Fresh(), steps, interval))
  {
    if steps != [] {
      var k := |steps| - 1;
      RunKeepsGoaway(steps[..k], interval);
      RunKeepsWire(steps[..k], interval);
      hide GoawayInv, WireInv;
      StepKeepsGoaway(Run(Fresh(), steps[..k], interval), steps[k], interval);
    }
  }

  /** In every run a session ends to be begun again after a delay exactly when it has handled a goaway,
      which is then the last thing it did and names the delay; and no ending leaves anything unsent. */
  lemma GoawayEnds(steps: seq<Step>, interval: nat, delay: U64)
    ensures var c := Run(Fresh(), steps, interval);
            && (c.stage == Over(Again(Some(delay))) <==> Handled(Goaway(delay)) in c.trace)
            && c.stage != Over(Again(None)) && (c.stage.Over? ==> c.todo == [])
            && forall i :: 0 <= i < |c.trace| && c.trace[i].Handled? && c.trace[i].message.Goaway? ==> i == |c.trace| - 1
  {
    RunKeepsGoaway(steps, interval);
    var c := Run(Fresh(), steps, interval);
    hide Run;
    if c.stage.Over? && c.stage.ending.Again? {
      var m := c.trace[|c.trace| - 1].message;
      assert Handled(Goaway(m.retryAfterMs)) in c.trace;
    }
  }

  // ----- system information is never stale -----

  predicate InTime(checked: nat, published: nat, interval: nat) { checked <= published || checked < published + interval }

  /** Each check has a publication in time. */
  predicate Published(c: Conn, interval: nat) {
    forall i :: 0 <= i < |c.trace| && c.trace[i].SystemChecked? ==>
      c.published != [] && InTime(c.trace[i].at, c.published[|c.published| - 1].at, interval)
  }

  predicate FreshInv(c: Conn, interval: nat) {
    && (forall i :: 0 <= i < |c.trace| && c.trace[i].SystemChecked? ==> c.trace[i].at <= c.clock)
    && (forall i :: 1 <= i < |c.todo| ==> !c.todo[i].SystemInfo?)
    && (c.writerAlive && !Publishing(c.todo) ==> Published(c, interval))
  }

  lemma SameKeepsFresh(c: Conn, d: Conn, interval: nat)
    requires FreshInv(c, interval) && d.trace == c.trace && d.todo == c.todo && d.published == c.published
    requires d.clock == c.clock && (d.writerAlive ==> c.writerAlive)
    ensures FreshInv(d, interval)
  {
  }

  lemma EventKeepsFresh(c: Conn, e: MainEvent, d: Conn, interval: nat)
    requires FreshInv(c, interval) && c.todo == [] && !e.SystemChecked? && d.trace == c.trace + [e] && NoInfo(d.todo)
    requires d.published == c.published && d.clock == c.clock && d.writerAlive == c.writerAlive
    ensures FreshInv(d, interval)
  {
  }

  lemma CheckKeepsFresh(c: Conn, force: bool, hash: Option<string>, now: nat, interval: nat)
    requires FreshInv(c, interval) && InfoInv(c, interval) && c.todo == [] && now >= c.clock
    ensures FreshInv(Check(c, force, hash, now, interval), interval)
  {
    var d := Check(c, force, hash, now, interval);
    if hash.Some? && d.todo == [] && c.writerAlive {
      var p := c.published[|c.published| - 1];
      forall i | 0 <= i < |d.trace| && d.trace[i].SystemChecked? ensures InTime(d.trace[i].at, p.at, interval) {
        if i < |c.trace| { assert c.trace[i].SystemChecked?; }
      }
    }
  }

  lemma MainSendKeepsFresh(c: Conn, now: nat, interval: nat)
    requires FreshInv(c, interval) && c.todo != [] && now >= c.clock
    ensures FreshInv(SendNext(c, now), interval)
  {
    var d := SendNext(c, now);
    assert forall i :: 0 <= i < |d.todo| ==> d.todo[i] == c.todo[i + 1];
  }

  lemma HandshakeKeepsFresh(c: Conn, m: IncomingMessage, interval: nat)
    requires FreshInv(c, interval) && c.todo == [] && c.trace == []
    ensures FreshInv(Handshake(c, m), interval)
  {
  }

  lemma ReadKeepsFresh(c: Conn, frame: Incoming, interval: nat)
    requires FreshInv(c, interval) && CheckInv(c) && Reading(c)
    ensures FreshInv(ReadFrame(c, frame), interval)
  {
    assert c.stage != Steady ==> c.trace == [] && c.todo == [];
    hide FreshInv, CheckInv;
    match frame
    case Text(raw) =>
      match Decode(raw) {
        case Message(m) =>
          RepliesHaveNoInfo(m);
          if c.stage == Steady { EventKeepsFresh(c, Handled(m), Loop(c, m), interval); } else { HandshakeKeepsFresh(c, m, interval); }
        case _ =>
      }
    case Lost(_) => SameKeepsFresh(c, ReadFrame(c, frame), interval);
    case OtherFrame =>
  }

  lemma TickKeepsFresh(c: Conn, s: Step, interval: nat)
    requires FreshInv(c, interval) && (s.CollectMetrics? || s.ResyncTick?)
    ensures FreshInv(Next(c, s, interval), interval)
  {
    hide FreshInv;
    if c.todo == [] && (c.stage == Steady || (c.stage == FirstMetrics && s.CollectMetrics?)) {
      EventKeepsFresh(c, if s.ResyncTick? then ResyncTicked else MetricsRead(s.payload), Next(c, s, interval), interval);
    }
  }

  lemma StepKeepsFresh(c: Conn, s: Step, interval: nat)
    requires FreshInv(c, interval) && InfoInv(c, interval) && CheckInv(c)
    ensures FreshInv(Next(c, s, interval), interval)
  {
    hide FreshInv, InfoInv, CheckInv;
    match s
    case Read(frame) => if Reading(c) { ReadKeepsFresh(c, frame, interval); }
    case MainSend(now) => if c.todo != [] && now >= c.clock { MainSendKeepsFresh(c, now, interval); }
    case CheckSystem(hash, now) =>
      if c.todo == [] && now >= c.clock {
        if c.stage == FirstSystemInfo { CheckKeepsFresh(c, true, hash, now, interval); }
        else if c.stage == Steady { CheckKeepsFresh(c, false, hash, now, interval); }
      }
    case CollectMetrics(_) => TickKeepsFresh(c, s, interval);
    case ResyncTick => TickKeepsFresh(c, s, interval);
    case _ => SameKeepsFresh(c, Next(c, s, interval), interval);
  }

  lemma {:induction false} RunKeepsFresh(steps: seq<Step>, interval: nat)
    ensures FreshInv(Run(Fresh(), steps, interval), interval)
  {
    if steps != [] {
      var k := |steps| - 1;
      RunKeepsFresh(steps[..k], interval);
      RunKeepsInfo(steps[..k], interval);
      RunKeepsCheck(steps[..k], interval);
      hide FreshInv, InfoInv, CheckInv;
      StepKeepsFresh(Run(Fresh(), steps[..k], interval), steps[k], interval);
    }
  }

  /** In every run with a living writer and nothing left to send: since every successful check of the
      system less than the republish interval has passed without a publication, or none at all; so an
      unchanged hash is published again as soon as a check finds the last publication that old. */
  lemma InfoIsNeverStale(steps: seq<Step>, interval: nat, i: nat)
    requires var c := Run(Fresh(), steps, interval);
             c.todo == [] && c.writerAlive && i < |c.trace| && c.trace[i].SystemChecked?
    ensures var c := Run(Fresh(), steps, interval);
            && c.published != []
            && var last := c.published[|c.published| - 1].at;
               c.trace[i].at <= last || c.trace[i].at < last + interval
  {
    RunKeepsFresh(steps, interval);
  }
}
