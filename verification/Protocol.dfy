/** Messages of protocol v2, decoding, and the plan drawn from a desired state. */
module Protocol {
  import opened Text
  import opened LogRecords

  // ----- messages in -----

  datatype ObjectMeta = ObjectMeta(id: string, projectId: string, nodeId: string, generation: U64)

  /** Only the metadata of an object decides what is reported about it. */
  datatype RuntimeSpec = RuntimeSpec(meta: ObjectMeta)
  datatype WorkloadSpec = WorkloadSpec(meta: ObjectMeta)

  datatype NodeDesiredState = NodeDesiredState(
    nodeId: string, generation: U64, runtimes: seq<RuntimeSpec>, workloads: seq<WorkloadSpec>)

  datatype WelcomeBody = WelcomeBody(sessionId: string, resyncSec: U32, upgradeRequired: Option<bool>)

  datatype LogQueryBody = LogQueryBody(
    requestId: string, scope: Option<string>, resourceId: Option<string>, cursor: Option<string>, limit: Option<nat>)

  datatype IncomingMessage =
    | Challenge(nonce: string)
    | Welcome(welcome: WelcomeBody)
    | Goaway(retryAfterMs: U64)
    | Ping
    | Desired(state: NodeDesiredState)
    | LogQuery(query: LogQueryBody)
    | Unhandled(kind: string)

  /** What each typed deserialisation of an envelope's body gives. */
  datatype Body = Body(
    challenge: Option<string>, welcome: Option<WelcomeBody>, goaway: Option<U64>,
    desired: Option<NodeDesiredState>, query: Option<LogQueryBody>)

  datatype RawText = NotAnEnvelope | Envelope(kind: string, body: Body)

  datatype Decoded = Message(message: IncomingMessage) | InvalidEnvelope | InvalidBody(kind: string)

  function Decode(raw: RawText): Decoded {
    match raw
    case NotAnEnvelope => InvalidEnvelope
    case Envelope(kind, body) =>
      if kind == "challenge" then
        match body.challenge case Some(v) => Message(Challenge(v)) case None => InvalidBody(kind)
      else if kind == "welcome" then
        match body.welcome case Some(v) => Message(Welcome(v)) case None => InvalidBody(kind)
      else if kind == "goaway" then
        match body.goaway case Some(v) => Message(Goaway(v)) case None => InvalidBody(kind)
      else if kind == "ping" then Message(Ping)
      else if kind == "desired" then
        match body.desired case Some(v) => Message(Desired(v)) case None => InvalidBody(kind)
      else if kind == "logs.query" then
        match body.query case Some(v) => Message(LogQuery(v)) case None => InvalidBody(kind)
      else Message(Unhandled(kind))
  }

  /** The types of frames the server sends. */
  const KINDS: seq<string> := ["challenge", "welcome", "goaway", "ping", "desired", "logs.query"]

  /** The frame a server writes for a message; the other typed readings of its body fail. */
  function Encode(m: IncomingMessage): RawText {
    var none := Body(None, None, None, None, None);
    match m
    case Challenge(v) => Envelope("challenge", none.(challenge := Some(v)))
    case Welcome(v) => Envelope("welcome", none.(welcome := Some(v)))
    case Goaway(v) => Envelope("goaway", none.(goaway := Some(v)))
    case Ping => Envelope("ping", none)
    case Desired(v) => Envelope("desired", none.(desired := Some(v)))
    case LogQuery(v) => Envelope("logs.query", none.(query := Some(v)))
    case Unhandled(kind) => Envelope(kind, none)
  }

  /** `body` is what a frame of the message's type carries. */
  predicate Carries(body: Body, m: IncomingMessage) {
    match m
    case Challenge(v) => body.challenge == Some(v)
    case Welcome(v) => body.welcome == Some(v)
    case Goaway(v) => body.goaway == Some(v)
    case Desired(v) => body.desired == Some(v)
    case LogQuery(v) => body.query == Some(v)
    case _ => true
  }

  /** A frame decodes to a message exactly when it has the message's type and its body reads as that
      type's; a frame of a known type is never unhandled. */
  lemma DecodeExactly(raw: RawText, m: IncomingMessage)
    ensures Decode(raw) == Message(m)
       <==> && raw.Envelope? && raw.kind == Encode(m).kind && Carries(raw.body, m)
            && (m.Unhandled? ==> m.kind !in KINDS)
  {
    if raw.Envelope? {
      assert raw.kind in KINDS ==> exists i :: 0 <= i < 6 && KINDS[i] == raw.kind;
    }
  }

  lemma DecodeOfEncode(m: IncomingMessage)
    requires m.Unhandled? ==> m.kind !in KINDS
    ensures Decode(Encode(m)) == Message(m)
  {
    DecodeExactly(Encode(m), m);
  }

  // ----- messages out -----

  datatype ObjectKind = Runtime | Workload

  datatype Phase = Pending

  /** Status of one object; every object is reported pending and unsupported. Times are left out. */
  datatype ObjectStatus = ObjectStatus(
    id: string, kind: ObjectKind, nodeId: string, observedGeneration: U64, phase: Phase, reason: string)

  datatype NodeEvent = NodeEvent(nodeId: string, generation: Option<U64>, reason: string)

  datatype Outbound =
    | Pong
    | Status(status: ObjectStatus)
    | Event(event: NodeEvent)
    | Metrics(payload: string)
    | SystemInfo(hash: string)
    | LogResult(requestId: string, records: seq<Record>, nextCursor: Option<string>)
    | LogCapabilities

  // ----- the plan -----

  datatype Plan = Plan(statuses: seq<ObjectStatus>, event: NodeEvent)

  function PendingStatus(kind: ObjectKind, meta: ObjectMeta): ObjectStatus {
    ObjectStatus(meta.id, kind, meta.nodeId, meta.generation, Pending, "Unsupported")
  }

  /** One status per runtime, then one per workload, in order. */
  function StatusesOf(s: NodeDesiredState): (r: seq<ObjectStatus>)
    ensures |r| == |s.runtimes| + |s.workloads|
    ensures forall i :: 0 <= i < |s.runtimes| ==>
              && r[i].kind == Runtime && r[i].id == s.runtimes[i].meta.id
              && r[i].observedGeneration == s.runtimes[i].meta.generation
    ensures forall i :: 0 <= i < |s.workloads| ==>
              var w := r[|s.runtimes| + i];
              w.kind == Workload && w.id == s.workloads[i].meta.id && w.observedGeneration == s.workloads[i].meta.generation
  {
    seq(|s.runtimes|, i requires 0 <= i < |s.runtimes| => PendingStatus(Runtime, s.runtimes[i].meta))
    + seq(|s.workloads|, i requires 0 <= i < |s.workloads| => PendingStatus(Workload, s.workloads[i].meta))
  }

  function EventOf(s: NodeDesiredState): NodeEvent { NodeEvent(s.nodeId, Some(s.generation), "DesiredStateReceived") }

  lemma AllStatuses(ss: seq<ObjectStatus>, n: nat)
    requires n == |ss|
    ensures ss[..n] == ss
  {
  }

  lemma NextStatus(state: NodeDesiredState, k: nat)
    requires k < |state.runtimes| + |state.workloads|
    ensures StatusesOf(state)[..k + 1] == StatusesOf(state)[..k] + [StatusAt(state, k)]
  {
  }

  function StatusAt(state: NodeDesiredState, k: nat): ObjectStatus
    requires k < |state.runtimes| + |state.workloads|
  {
    if k < |state.runtimes| then PendingStatus(Runtime, state.runtimes[k].meta)
    else PendingStatus(Workload, state.workloads[k - |state.runtimes|].meta)
  }

  method MakePlan(state: NodeDesiredState) returns (plan: Plan)
    ensures plan == Plan(StatusesOf(state), EventOf(state))
  {
    hide StatusesOf, PendingStatus;
    var statuses: seq<ObjectStatus> := [];
    var k := 0;
    while k < |state.runtimes|
      invariant k <= |state.runtimes| && statuses == StatusesOf(state)[..k]
    {
      NextStatus(state, k);
      statuses := statuses + [PendingStatus(Runtime, state.runtimes[k].meta)];
      k := k + 1;
    }
    var n := 0;
    while n < |state.workloads|
      invariant n <= |state.workloads| && statuses == StatusesOf(state)[..k + n]
    {
      NextStatus(state, k + n);
      statuses := statuses + [PendingStatus(Workload, state.workloads[n].meta)];
      n := n + 1;
    }
    AllStatuses(StatusesOf(state), k + n);
    plan := Plan(statuses, EventOf(state));
  }
}
