/** What each step of a connection does, and that a connection can always go on: start, serve and deliver. */
module ConnectionProgress {
  import opened Text
  import opened LogRecords
  import opened Protocol
  import opened Dispatch
  import opened Connection
  import opened ConnectionFacts

  // ----- the loop -----

  /** In the loop with nothing left to send, a frame that decodes is handled; a goaway ends the session with
      its delay, a desired state is remembered, a log query gets its task. */
  lemma IdleLoopHandles(c: Conn, raw: RawText, interval: nat)
    requires c.stage == Steady && c.todo == [] && Decode(raw).Message?
    ensures var d, m := Next(c, Read(Text(raw)), interval), Decode(raw).message;
            && d.trace == c.trace + [Handled(m)]
            && d.stage == (if m.Goaway? then Over(Again(Some(m.retryAfterMs))) else Steady)
            && d.lastDesired == (if m.Desired? then Some(m.state) else c.lastDesired)
            && d.tasks == (if m.LogQuery? then c.tasks + multiset{m.query.requestId} else c.tasks)
  {
    hide Replies;
  }

  /** Each timer leads to its event, and a stop or a lost connection ends the session. */
  lemma IdleLoopTakes(c: Conn, payload: Option<string>, hash: string, now: nat, stopping: bool, interval: nat)
    requires c.stage == Steady && c.todo == []
    ensures Next(c, CollectMetrics(payload), interval).trace == c.trace + [MetricsRead(payload)]
    ensures Next(c, ResyncTick, interval).trace == c.trace + [ResyncTicked]
    ensures now >= c.clock ==> exists publish :: IsCheck(c, hash, publish, now, Next(c, CheckSystem(Some(hash), now), interval))
    ensures Next(c, StopSignal, interval).stage == Over(Stopped)
    ensures Next(c, Read(Lost(stopping)), interval).stage == Over(if stopping then Stopped else Error)
  {
    if now >= c.clock {
      assert IsCheck(c, hash, ShouldPublish(c, false, hash, now, interval), now, Next(c, CheckSystem(Some(hash), now), interval));
    }
  }

  predicate IsCheck(c: Conn, hash: string, publish: bool, now: nat, d: Conn) {
    d.trace == c.trace + [SystemChecked(hash, publish, now)]
  }

  /** A task's reply carries its own query's id and whatever it found; a task that fails sends nothing. */
  lemma TasksEnd(c: Conn, id: string, records: seq<Record>, next: Option<string>, interval: nat)
    requires id in c.tasks
    ensures var d := Next(c, TaskReply(id, records, next), interval);
            && d.tasks == c.tasks - multiset{id}
            && (c.writerAlive ==> d.queue == c.queue + [LogResult(id, records, next)])
            && (!c.writerAlive ==> d.lost == c.lost + [Sent(QueryTask, LogResult(id, records, next))])
    ensures var d := Next(c, TaskFail(id), interval);
            d.tasks == c.tasks - multiset{id} && d.queue == c.queue && d.unanswered == c.unanswered + multiset{id}
  {
  }

  /** When a write fails the writer is gone: nothing more is put on the wire, and what is sent is lost. */
  lemma WriterEnds(c: Conn, s: Step, sender: Sender, m: Outbound, interval: nat)
    requires c.writerAlive && c.queue != []
    ensures var d := Next(c, WriterFail, interval);
            && !d.writerAlive && d.wire == c.wire && Next(d, WriterSend, interval) == d
            && Send(d, sender, m) == d.(lost := d.lost + [Sent(sender, m)])
  {
  }

  // ----- the handshake -----

  /** Whatever goes wrong in the handshake ends the session with an error: a frame that cannot be written,
      a lost connection, a timeout, or a welcome that asks for an upgrade. */
  lemma HandshakeFails(c: Conn, stopping: bool, w: WelcomeBody, raw: RawText, interval: nat)
    ensures c.stage == Connecting ==> Next(c, Connected(false), interval).stage == Over(Error)
    ensures c.stage == SendingAuth ==> Next(c, AuthWritten(false), interval).stage == Over(Error)
    ensures c.stage == AwaitChallenge || c.stage == AwaitWelcome ==>
              && Next(c, HandshakeTimeout, interval).stage == Over(Error)
              && Next(c, Read(Lost(stopping)), interval).stage == Over(Error)
    ensures c.stage == AwaitWelcome && Decode(raw) == Message(Welcome(w)) && w.upgradeRequired == Some(true) ==>
              Next(c, Read(Text(raw)), interval).stage == Over(Error)
  {
  }

  // ----- everything called for can reach the wire -----

  /** `Run` can go on from where it was. */
  lemma {:induction false} RunOn(c: Conn, a: seq<Step>, b: seq<Step>, interval: nat)
    ensures Run(c, a + b, interval) == Run(Run(c, a, interval), b, interval)
    decreases |b|
  {
    if b == [] {
      assert a + b == a;
    } else {
      var k := |b| - 1;
      assert (a + b)[..|a + b| - 1] == a + b[..k];
      RunOn(c, a, b[..k], interval);
    }
  }

  lemma OneStep(c: Conn, s: Step, interval: nat)
    ensures Run(c, [s], interval) == Next(c, s, interval)
  {
    assert [s][..0] == [];
  }

  lemma NoStep(c: Conn, interval: nat)
    ensures Run(c, [], interval) == c
  {
  }

  lemma WriterWrites(c: Conn, interval: nat)
    requires c.writerAlive && c.queue != []
    ensures Next(c, WriterSend, interval) == c.(wire := c.wire + [Frame(c.queue[0])], queue := c.queue[1..])
    ensures QueueFrames(c.queue) == [Frame(c.queue[0])] + QueueFrames(c.queue[1..])
  {
  }

  /** The writer empties the queue onto the wire. */
  lemma {:induction false} WriterFinishes(c: Conn, interval: nat) returns (more: seq<Step>)
    requires c.writerAlive
    ensures Run(c, more, interval) == c.(wire := c.wire + QueueFrames(c.queue), queue := [])
    decreases |c.queue|
  {
    hide Run, Next;
    more := [];
    if c.queue == [] {
      NoStep(c, interval);
      assert c.wire + QueueFrames(c.queue) == c.wire;
    } else {
      var d := Next(c, WriterSend, interval);
      WriterWrites(c, interval);
      var rest := WriterFinishes(d, interval);
      more := [WriterSend] + rest;
      OneStep(c, WriterSend, interval);
      RunOn(c, [WriterSend], rest, interval);
      Assoc(c.wire, [Frame(c.queue[0])], QueueFrames(c.queue[1..]));
    }
  }

  lemma MainSends(c: Conn, interval: nat)
    requires c.writerAlive && c.todo != []
    ensures var d := Next(c, MainSend(c.clock), interval);
            && d.todo == c.todo[1..] && d.queue == c.queue + [c.todo[0]] && d.writerAlive
            && d.trace == c.trace && d.stage == c.stage && d.heard == c.heard && d.wire == c.wire && d.clock == c.clock
  {
  }

  /** The main task sends what it has decided to send. */
  lemma {:induction false} MainFinishes(c: Conn, interval: nat) returns (more: seq<Step>)
    requires c.writerAlive
    ensures var d := Run(c, more, interval);
            && d.todo == [] && d.queue == c.queue + c.todo && d.writerAlive
            && d.trace == c.trace && d.stage == c.stage && d.heard == c.heard && d.wire == c.wire && d.clock == c.clock
    decreases |c.todo|
  {
    hide Run, Next;
    more := [];
    if c.todo == [] {
      NoStep(c, interval);
      assert c.queue + [] == c.queue;
    } else {
      var s := MainSend(c.clock);
      var d := Next(c, s, interval);
      MainSends(c, interval);
      var rest := MainFinishes(d, interval);
      more := [s] + rest;
      OneStep(c, s, interval);
      RunOn(c, [s], rest, interval);
      assert c.todo == [c.todo[0]] + c.todo[1..];
      Assoc(c.queue, [c.todo[0]], c.todo[1..]);
    }
  }

  /** From every state of every run with a living writer, main task and writer alone can put everything
      on the wire: what was queued, then what was left to send. */
  lemma EverythingCanBeDelivered(steps: seq<Step>, interval: nat) returns (more: seq<Step>)
    requires var c := Run(Fresh(), steps, interval); c.trace != [] && c.writerAlive
    ensures var c := Run(Fresh(), steps, interval);
            var d := Run(Fresh(), steps + more, interval);
            && d.trace == c.trace && d.todo == [] && d.queue == [] && d.lost == []
            && d.wire == c.wire + QueueFrames(c.queue + c.todo)
            && d.wire == [Hello, Auth] + Frames(d.sent)
  {
    var c := Run(Fresh(), steps, interval);
    hide Run, Next, Fresh;
    var a := MainFinishes(c, interval);
    var b := WriterFinishes(Run(c, a, interval), interval);
    more := a + b;
    RunOn(c, a, b, interval);
    RunOn(Fresh(), steps, more, interval);
    RunKeepsWire(steps + more, interval);
    var d := Run(Fresh(), steps + more, interval);
    assert QueueFrames([]) == [] && d.wire + [] == d.wire;
  }

  // ----- a session can start -----

  lemma TakeStep(steps: seq<Step>, s: Step, interval: nat) returns (more: seq<Step>)
    ensures Run(Fresh(), more, interval) == Next(Run(Fresh(), steps, interval), s, interval)
  {
    more := steps + [s];
    assert more[..|steps|] == steps;
  }

  lemma SendAll(steps: seq<Step>, interval: nat) returns (more: seq<Step>)
    requires Run(Fresh(), steps, interval).writerAlive
    ensures var c, d := Run(Fresh(), steps, interval), Run(Fresh(), more, interval);
            && d.todo == [] && d.writerAlive && d.trace == c.trace && d.stage == c.stage && d.heard == c.heard && d.clock == c.clock
  {
    hide Run, Fresh;
    var rest := MainFinishes(Run(Fresh(), steps, interval), interval);
    more := steps + rest;
    RunOn(Fresh(), steps, rest, interval);
  }

  lemma Connects(c: Conn, interval: nat)
    ensures c.stage == Connecting ==> Next(c, Connected(true), interval) == c.(stage := AwaitChallenge, wire := [Hello])
    ensures c.stage == SendingAuth ==> Next(c, AuthWritten(true), interval) == c.(stage := AwaitWelcome, wire := c.wire + [Auth])
  {
  }

  lemma Challenged(c: Conn, nonce: string, interval: nat)
    requires c.stage == AwaitChallenge
    ensures Next(c, Read(Text(Encode(Challenge(nonce)))), interval) == c.(stage := SendingAuth, heard := c.heard + [Challenge(nonce)])
  {
    DecodeOfEncode(Challenge(nonce));
  }

  lemma IsWelcome(c: Conn, w: WelcomeBody, interval: nat)
    requires c.stage == AwaitWelcome && w.upgradeRequired != Some(true)
    ensures Next(c, Read(Text(Encode(Welcome(w)))), interval)
         == c.(stage := FirstMetrics, todo := [LogCapabilities], trace := [Welcomed], heard := c.heard + [Welcome(w)])
  {
    DecodeOfEncode(Welcome(w));
  }

  lemma FirstReports(c: Conn, payload: Option<string>, hash: string, interval: nat)
    requires c.todo == []
    ensures c.stage == FirstMetrics ==>
              var d := Next(c, CollectMetrics(payload), interval);
              d.stage == FirstSystemInfo && d.trace == c.trace + [MetricsRead(payload)] && d.heard == c.heard && d.writerAlive == c.writerAlive
    ensures c.stage == FirstSystemInfo ==>
              var d := Next(c, CheckSystem(Some(hash), c.clock), interval);
              && d.stage == Steady && d.trace == c.trace + [SystemChecked(hash, true, c.clock)]
              && d.heard == c.heard && d.writerAlive == c.writerAlive
  {
  }

  /** The handshake can be gone through: hello, the challenge, auth, and a welcome that asks for no upgrade. */
  lemma HandshakeSucceeds(nonce: string, w: WelcomeBody, interval: nat) returns (steps: seq<Step>)
    requires w.upgradeRequired != Some(true)
    ensures var c := Run(Fresh(), steps, interval);
            && c.stage == FirstMetrics && c.wire == [Hello, Auth] && c.trace == [Welcomed] && c.writerAlive
            && c.heard == [Challenge(nonce), Welcome(w)]
  {
    NoStep(Fresh(), interval);
    hide Run, Next;
    steps := TakeStep([], Connected(true), interval);
    Connects(Fresh(), interval);
    var c1 := Run(Fresh(), steps, interval);
    steps := TakeStep(steps, Read(Text(Encode(Challenge(nonce)))), interval);
    Challenged(c1, nonce, interval);
    var c2 := Run(Fresh(), steps, interval);
    steps := TakeStep(steps, AuthWritten(true), interval);
    Connects(c2, interval);
    var c3 := Run(Fresh(), steps, interval);
    steps := TakeStep(steps, Read(Text(Encode(Welcome(w)))), interval);
    IsWelcome(c3, w, interval);
    assert [Hello] + [Auth] == [Hello, Auth];
    assert [] + [Challenge(nonce)] + [Welcome(w)] == [Challenge(nonce), Welcome(w)];
  }

  /** And then the main task gets to its loop, with the capabilities, the metrics if there are any, and
      the system information called for and sent. */
  lemma SessionStarts(nonce: string, w: WelcomeBody, payload: Option<string>, hash: string, interval: nat)
    returns (steps: seq<Step>)
    requires w.upgradeRequired != Some(true)
    ensures var c := Run(Fresh(), steps, interval);
            && c.stage == Steady && c.todo == [] && c.writerAlive && c.heard == [Challenge(nonce), Welcome(w)]
            && exists at: nat :: c.trace == [Welcomed, MetricsRead(payload), SystemChecked(hash, true, at)]
  {
    hide Run, Next, Fresh;
    steps := HandshakeSucceeds(nonce, w, interval);
    steps := SendAll(steps, interval);
    var c := Run(Fresh(), steps, interval);
    steps := TakeStep(steps, CollectMetrics(payload), interval);
    FirstReports(c, payload, hash, interval);
    steps := SendAll(steps, interval);
    var d := Run(Fresh(), steps, interval);
    assert d.trace == [Welcomed] + [MetricsRead(payload)] == [Welcomed, MetricsRead(payload)];
    steps := TakeStep(steps, CheckSystem(Some(hash), d.clock), interval);
    FirstReports(d, payload, hash, interval);
    steps := SendAll(steps, interval);
    assert Run(Fresh(), steps, interval).trace == [Welcomed, MetricsRead(payload), SystemChecked(hash, true, d.clock)];
  }
}
