/** Handling one decoded message: what it queues, what it remembers, how the session goes on. */
module Dispatch {
  import opened Text
  import opened Protocol
  import opened LogRecords
  import opened LogSpool
  import LogQuery

  datatype HandleOutcome = Continue | Reconnect(after: Option<U64>)

  function Statuses(ss: seq<ObjectStatus>): (r: seq<Outbound>)
    ensures |r| == |ss| && forall i :: 0 <= i < |ss| ==> r[i] == Status(ss[i])
  {
    seq(|ss|, i requires 0 <= i < |ss| => Status(ss[i]))
  }

  /** Everything handling a message queues. */
  function Replies(m: IncomingMessage): seq<Outbound> {
    match m
    case Ping => [Pong]
    case Desired(state) => Statuses(StatusesOf(state)) + [Event(EventOf(state))]
    case _ => []
  }

  function ResyncReplies(state: NodeDesiredState): seq<Outbound> { Statuses(StatusesOf(state)) }

  // ----- the same, said over the fields of what was asked for -----

  /** A status of one object: pending, unsupported, at the object's own generation. */
  predicate Reports(m: Outbound, kind: ObjectKind, meta: ObjectMeta) {
    m == Status(ObjectStatus(meta.id, kind, meta.nodeId, meta.generation, Pending, "Unsupported"))
  }

  /** One status per runtime, then one per workload, in order. */
  predicate Snapshot(ms: seq<Outbound>, s: NodeDesiredState) {
    && |ms| == |s.runtimes| + |s.workloads|
    && (forall i :: 0 <= i < |s.runtimes| ==> Reports(ms[i], Runtime, s.runtimes[i].meta))
    && (forall i :: |s.runtimes| <= i < |ms| ==> Reports(ms[i], Workload, s.workloads[i - |s.runtimes|].meta))
  }

  /** A snapshot, and then the one event. */
  predicate Acknowledges(ms: seq<Outbound>, s: NodeDesiredState) {
    && ms != []
    && Snapshot(ms[..|ms| - 1], s)
    && ms[|ms| - 1] == Event(NodeEvent(s.nodeId, Some(s.generation), "DesiredStateReceived"))
  }

  /** What a message is answered with at once; log queries are answered by tasks. */
  predicate AnsweredBy(m: IncomingMessage, ms: seq<Outbound>) {
    match m
    case Desired(s) => Acknowledges(ms, s)
    case Ping => ms == [Pong]
    case _ => ms == []
  }

  lemma ResyncIsSnapshot(s: NodeDesiredState)
    ensures Snapshot(ResyncReplies(s), s)
  {
  }

  lemma RepliesAnswer(m: IncomingMessage)
    ensures AnsweredBy(m, Replies(m))
  {
    if m.Desired? {
      var ss, e := Statuses(StatusesOf(m.state)), Event(EventOf(m.state));
      assert (ss + [e])[..|ss|] == ss;
      ResyncIsSnapshot(m.state);
    }
  }

  /** The task of one log query: the page for its own fields, at most 200 records unless it says so. */
  method AnswerLogQuery(codec: Codec, directory: Option<Directory>, q: LogQueryBody) returns (result: Outbound)
    ensures result.LogResult? && result.requestId == q.requestId
    ensures directory.None? ==> result.records == [] && result.nextCursor == None
    ensures var page := LogQuery.Page(result.records, result.nextCursor);
            && LogQuery.NewestFirst(page.records)
            && LogQuery.SizedFor(page, match q.limit case None => 200 case Some(n) => n)
            && (directory.Some? ==>
                  LogQuery.Answers(LogQuery.Collect(codec, directory.value, q.scope, q.resourceId), q.cursor,
                                   match q.limit case None => 200 case Some(n) => n, page))
    ensures forall r :: r in result.records ==>
              && (q.scope.Some? ==> r.scope == q.scope.value)
              && (q.resourceId.Some? ==> r.resourceId == q.resourceId || r.jobId == q.resourceId)
  {
    var limit := match q.limit case None => 200 case Some(n) => n;
    var page := LogQuery.Query(codec, directory, q.scope, q.resourceId, q.cursor, limit);
    result := LogResult(q.requestId, page.records, page.next);
  }

  /** The sending half of the outbound channel, the session's memory of the last desired state, and the
      log queries handed to tasks. */
  class Session {
    var queued: seq<Outbound>
    var lastDesired: Option<NodeDesiredState>
    var spawned: seq<LogQueryBody>

    constructor ()
      ensures queued == [] && lastDesired == None && spawned == []
    {
      queued, lastDesired, spawned := [], None, [];
    }

    method SendStatuses(ss: seq<ObjectStatus>)
      modifies this`queued
      ensures queued == old(queued) + Statuses(ss)
    {
      var k := 0;
      while k < |ss|
        invariant k <= |ss| && queued == old(queued) + Statuses(ss)[..k]
      {
        queued := queued + [Status(ss[k])];
        k := k + 1;
      }
    }

    method ApplyDesired(state: NodeDesiredState)
      modifies this`queued, this`lastDesired
      ensures queued == old(queued) + Replies(Desired(state)) && lastDesired == Some(state)
      ensures Acknowledges(queued[|old(queued)|..], state)
    {
      RepliesAnswer(Desired(state));
      var plan := MakePlan(state);
      SendStatuses(plan.statuses);
      queued := queued + [Event(plan.event)];
      lastDesired := Some(state);
    }

    method Resync(state: NodeDesiredState)
      modifies this`queued
      ensures queued == old(queued) + ResyncReplies(state) && Snapshot(queued[|old(queued)|..], state)
    {
      ResyncIsSnapshot(state);
      var plan := MakePlan(state);
      SendStatuses(plan.statuses);
    }

    method Handle(message: IncomingMessage) returns (outcome: HandleOutcome)
      modifies this
      ensures outcome == if message.Goaway? then Reconnect(Some(message.retryAfterMs)) else Continue
      ensures queued == old(queued) + Replies(message) && AnsweredBy(message, queued[|old(queued)|..])
      ensures lastDesired == if message.Desired? then Some(message.state) else old(lastDesired)
      ensures spawned == old(spawned) + if message.LogQuery? then [message.query] else []
    {
      RepliesAnswer(message);
      outcome := Continue;
      match message {
        case Ping => queued := queued + [Pong];
        case Goaway(ms) => outcome := Reconnect(Some(ms));
        case Desired(state) => ApplyDesired(state);
        case LogQuery(query) => spawned := spawned + [query];
        case Unhandled(_) =>
        case Challenge(_) =>
        case Welcome(_) =>
      }
    }
  }
}
