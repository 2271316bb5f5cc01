/** Waiting for a guest to come up: the readiness loops of job and project virtual machines, on an ideal
    clock in nanoseconds. Only probes and sleeps take time. */
module Readiness {
  import opened Text

  const SECOND: nat := 1_000_000_000
  const PAUSE := 2 * SECOND
  const PROBE_LIMIT := 5 * SECOND

  datatype Answer = BootFinished | NotYet | LaunchFailed

  /** What a probe would do if it were given all the time it takes. */
  datatype Probe = Probe(takes: nat, answer: Answer)

  datatype Failure = Refused | NoLaunch | ProbeTimedOut

  datatype Qemu = Running | Exited(status: int) | WaitFailed

  /** What one turn of a loop meets: the state of the qemu process, then the probe. */
  datatype Turn = Turn(qemu: Qemu, probe: Probe)

  /** What has happened by the time a loop returns. */
  datatype Wait =
    | Ready
    | QemuExited(status: int)
    | QemuWaitFailed
    | TimedOut(last: Option<Failure>)

  function Min(a: nat, b: nat): nat { if a < b then a else b }

  // ----- one probe under a time limit -----

  function Spent(p: Probe, limit: nat): nat { Min(p.takes, limit) }

  predicate Succeeds(p: Probe, limit: nat) { p.takes <= limit && p.answer.BootFinished? }

  function FailureOf(p: Probe, limit: nat): Failure {
    if p.takes > limit then ProbeTimedOut else if p.answer.LaunchFailed? then NoLaunch else Refused
  }

  // ----- the timeline of a loop that never stops -----

  /** Job machines give a probe at most the time that remains; project machines always five seconds. */
  datatype Kind = Job | Project

  function Limit(kind: Kind, deadline: nat, at: nat): nat {
    if kind.Project? then PROBE_LIMIT else Min(if at < deadline then deadline - at else 0, PROBE_LIMIT)
  }

  /** When turn `k` starts. */
  function Start(kind: Kind, world: nat -> Turn, deadline: nat, k: nat): nat {
    if k == 0 then 0
    else
      var at := Start(kind, world, deadline, k - 1);
      at + Spent(world(k - 1).probe, Limit(kind, deadline, at)) + PAUSE
  }

  /** The time turn `k` has for its probe. */
  function LimitAt(kind: Kind, world: nat -> Turn, deadline: nat, k: nat): nat {
    Limit(kind, deadline, Start(kind, world, deadline, k))
  }

  /** Project machines are not asked about their process. */
  predicate Alive(kind: Kind, t: Turn) { kind.Job? ==> t.qemu.Running? }

  predicate GoesOn(kind: Kind, world: nat -> Turn, deadline: nat, k: nat) {
    && Alive(kind, world(k))
    && Start(kind, world, deadline, k) < deadline
    && !Succeeds(world(k).probe, LimitAt(kind, world, deadline, k))
  }

  /** The answer of turn `k`, the first that does not go on. */
  function Verdict(kind: Kind, world: nat -> Turn, deadline: nat, k: nat): Wait {
    if kind.Job? && world(k).qemu.Exited? then QemuExited(world(k).qemu.status)
    else if kind.Job? && world(k).qemu.WaitFailed? then QemuWaitFailed
    else if Start(kind, world, deadline, k) >= deadline then
      TimedOut(if kind.Project? || k == 0 then None
               else Some(FailureOf(world(k - 1).probe, LimitAt(kind, world, deadline, k - 1))))
    else Ready
  }

  /** The loop stops in turn `k`. */
  ghost predicate StopsAt(kind: Kind, world: nat -> Turn, deadline: nat, k: nat) {
    && !GoesOn(kind, world, deadline, k)
    && forall j :: 0 <= j < k ==> GoesOn(kind, world, deadline, j)
  }

  // ----- bounds -----

  /** How far past the deadline a turn can start. */
  function Overrun(kind: Kind): nat { if kind.Job? then PAUSE else PROBE_LIMIT + PAUSE }

  lemma {:induction false} StartsAreSpaced(kind: Kind, world: nat -> Turn, deadline: nat, k: nat)
    ensures Start(kind, world, deadline, k) >= k * PAUSE
  {
    if k > 0 { StartsAreSpaced(kind, world, deadline, k - 1); }
  }

  lemma LastTurnIsSoon(kind: Kind, world: nat -> Turn, deadline: nat, k: nat)
    requires k > 0 ==> GoesOn(kind, world, deadline, k - 1)
    ensures Start(kind, world, deadline, k) <= deadline + Overrun(kind)
  {
    if k > 0 {
      var at := Start(kind, world, deadline, k - 1);
      assert Start(kind, world, deadline, k) == at + Spent(world(k - 1).probe, Limit(kind, deadline, at)) + PAUSE;
    }
  }

  lemma FewTurns(kind: Kind, world: nat -> Turn, timeoutSeconds: nat, k: nat)
    requires Start(kind, world, timeoutSeconds * SECOND, k) < timeoutSeconds * SECOND
    ensures k + 1 <= (timeoutSeconds + 1) / 2
  {
    StartsAreSpaced(kind, world, timeoutSeconds * SECOND, k);
  }

  /** Whatever probes do and however long they would take: a loop with a timeout of T seconds makes at
      most T/2 probes, rounded up, and is over by T+2 seconds for a job machine and T+7 for a project
      machine; a job machine is found ready by T, if at all. */
  lemma BoundedWait(kind: Kind, world: nat -> Turn, timeoutSeconds: nat, k: nat)
    requires StopsAt(kind, world, timeoutSeconds * SECOND, k)
    ensures var deadline := timeoutSeconds * SECOND;
            var ready := Verdict(kind, world, deadline, k).Ready?;
            var end := Start(kind, world, deadline, k) + if ready then world(k).probe.takes else 0;
            && k + (if ready then 1 else 0) <= (timeoutSeconds + 1) / 2
            && end <= deadline + Overrun(kind)
            && (kind.Job? && ready ==> end <= deadline)
  {
    var deadline := timeoutSeconds * SECOND;
    if k > 0 {
      assert GoesOn(kind, world, deadline, k - 1);
      FewTurns(kind, world, timeoutSeconds, k - 1);
    }
    LastTurnIsSoon(kind, world, deadline, k);
    hide Start;
    if Verdict(kind, world, deadline, k).Ready? { FewTurns(kind, world, timeoutSeconds, k); }
  }

  // ----- the loops -----

  method WaitForGuest(world: nat -> Turn, timeoutSeconds: nat) returns (r: Wait, elapsed: nat, probes: nat, k: nat)
    ensures var deadline := timeoutSeconds * SECOND;
            && StopsAt(Job, world, deadline, k)
            && r == Verdict(Job, world, deadline, k)
            && probes == k + (if r.Ready? then 1 else 0)
            && elapsed == Start(Job, world, deadline, k) + if r.Ready? then world(k).probe.takes else 0
    ensures probes <= (timeoutSeconds + 1) / 2
    ensures elapsed <= (timeoutSeconds + 2) * SECOND && (r.Ready? ==> elapsed <= timeoutSeconds * SECOND)
  {
    var deadline := timeoutSeconds * SECOND;
    var lastFailure := None;
    elapsed, probes, k := 0, 0, 0;
    while true
      invariant elapsed == Start(Job, world, deadline, k) && probes == k
      invariant forall j :: 0 <= j < k ==> GoesOn(Job, world, deadline, j)
      invariant lastFailure == if k == 0 then None
                               else Some(FailureOf(world(k - 1).probe, LimitAt(Job, world, deadline, k - 1)))
      invariant elapsed <= deadline + PAUSE
      decreases deadline + PAUSE - elapsed
    {
      match world(k).qemu {
        case Running =>
        case Exited(status) => r := QemuExited(status); break;
        case WaitFailed => r := QemuWaitFailed; break;
      }
      if elapsed >= deadline {
        r := TimedOut(lastFailure);
        break;
      }
      var remaining := deadline - elapsed;
      var limit := Min(remaining, PROBE_LIMIT);
      probes := probes + 1;
      var probe := world(k).probe;
      elapsed := elapsed + Spent(probe, limit);
      if Succeeds(probe, limit) {
        r := Ready;
        break;
      }
      lastFailure := Some(FailureOf(probe, limit));
      elapsed := elapsed + PAUSE;
      k := k + 1;
    }
    BoundedWait(Job, world, timeoutSeconds, k);
  }

  method WaitForProjectGuest(world: nat -> Turn, timeoutSeconds: nat) returns (r: Wait, elapsed: nat, probes: nat, k: nat)
    ensures var deadline := timeoutSeconds * SECOND;
            && StopsAt(Project, world, deadline, k)
            && r == Verdict(Project, world, deadline, k)
            && probes == k + (if r.Ready? then 1 else 0)
            && elapsed == Start(Project, world, deadline, k) + if r.Ready? then world(k).probe.takes else 0
    ensures probes <= (timeoutSeconds + 1) / 2
    ensures elapsed <= (timeoutSeconds + 7) * SECOND
  {
    var deadline := timeoutSeconds * SECOND;
    elapsed, probes, k := 0, 0, 0;
    while true
      invariant elapsed == Start(Project, world, deadline, k) && probes == k
      invariant forall j :: 0 <= j < k ==> GoesOn(Project, world, deadline, j)
      invariant elapsed <= deadline + PROBE_LIMIT + PAUSE
      decreases deadline + PROBE_LIMIT + PAUSE - elapsed
    {
      if elapsed >= deadline {
        r := TimedOut(None);
        break;
      }
      probes := probes + 1;
      var probe := world(k).probe;
      elapsed := elapsed + Spent(probe, PROBE_LIMIT);
      if Succeeds(probe, PROBE_LIMIT) {
        r := Ready;
        break;
      }
      elapsed := elapsed + PAUSE;
      k := k + 1;
    }
    BoundedWait(Project, world, timeoutSeconds, k);
  }

  // ----- what the answers mean -----

  /** Begun at `at`, the probe reports a finished boot within five seconds and, for a job, by the deadline. */
  predicate Answers(kind: Kind, deadline: nat, at: nat, p: Probe) {
    p.answer == BootFinished && p.takes <= 5 * SECOND && (kind.Job? ==> at + p.takes <= deadline)
  }

  lemma AnswersInTime(kind: Kind, deadline: nat, at: nat, p: Probe)
    ensures at < deadline ==> (Answers(kind, deadline, at, p) <==> Succeeds(p, Limit(kind, deadline, at)))
  {
  }

  /** Each turn that goes on takes its probe's time, but five seconds at most and for a job no more than is
      left, and a pause of two seconds; it goes on because its probe did not answer. */
  lemma TurnsExactly(kind: Kind, world: nat -> Turn, deadline: nat, k: nat)
    requires GoesOn(kind, world, deadline, k)
    ensures var at, end, takes := Start(kind, world, deadline, k), Start(kind, world, deadline, k + 1), world(k).probe.takes;
            && at + 2 * SECOND <= end <= at + takes + 2 * SECOND && end <= at + 7 * SECOND
            && (kind.Job? ==> end <= deadline + 2 * SECOND)
            && (end < at + takes + 2 * SECOND ==> end == at + 7 * SECOND || (kind.Job? && end == deadline + 2 * SECOND))
            && at < deadline && !Answers(kind, deadline, at, world(k).probe)
            && (kind.Job? ==> world(k).qemu == Running)
  {
  }

  /** Turn `j`, begun before the deadline with the process running so far if it is a job's, finds the guest. */
  predicate Finds(kind: Kind, world: nat -> Turn, deadline: nat, j: nat) {
    && (kind.Job? ==> forall i :: 0 <= i <= j ==> world(i).qemu == Running)
    && Start(kind, world, deadline, j) < deadline
    && Answers(kind, deadline, Start(kind, world, deadline, j), world(j).probe)
  }

  lemma FoundWhereItStops(kind: Kind, world: nat -> Turn, deadline: nat, k: nat)
    requires StopsAt(kind, world, deadline, k)
    ensures Verdict(kind, world, deadline, k).Ready? <==> Finds(kind, world, deadline, k)
  {
    AnswersInTime(kind, deadline, Start(kind, world, deadline, k), world(k).probe);
    hide Start, Answers;
    forall i | 0 <= i < k ensures kind.Job? ==> world(i).qemu == Running { assert GoesOn(kind, world, deadline, i); }
  }

  lemma NotFoundBefore(kind: Kind, world: nat -> Turn, deadline: nat, j: nat)
    requires GoesOn(kind, world, deadline, j)
    ensures !Finds(kind, world, deadline, j)
  {
    AnswersInTime(kind, deadline, Start(kind, world, deadline, j), world(j).probe);
    hide Start, Answers;
  }

  /** Ready means exactly that some probe, begun before the deadline with the process alive so far,
      reported a finished boot within five seconds and, for a job, by the deadline. */
  lemma ReadyExactlyWhenAProbeSucceeds(kind: Kind, world: nat -> Turn, deadline: nat, k: nat)
    requires StopsAt(kind, world, deadline, k)
    ensures Verdict(kind, world, deadline, k).Ready? <==> exists j :: 0 <= j <= k && Finds(kind, world, deadline, j)
  {
    FoundWhereItStops(kind, world, deadline, k);
    hide Finds, Verdict;
    forall j | 0 <= j < k ensures !Finds(kind, world, deadline, j) {
      assert GoesOn(kind, world, deadline, j);
      NotFoundBefore(kind, world, deadline, j);
    }
  }

  /** A loop that stops without success stops for the process, if a job's is not running, or for time; and
      then a job tells what its last probe did. */
  lemma FailsExactly(kind: Kind, world: nat -> Turn, deadline: nat, k: nat)
    requires StopsAt(kind, world, deadline, k)
    ensures var r := Verdict(kind, world, deadline, k);
            && (r.QemuExited? || r.QemuWaitFailed? <==> kind.Job? && !world(k).qemu.Running?)
            && (r.QemuExited? ==> world(k).qemu == Exited(r.status))
            && (r.QemuWaitFailed? ==> world(k).qemu.WaitFailed?)
            && (r.TimedOut? <==> Alive(kind, world(k)) && Start(kind, world, deadline, k) >= deadline)
            && (r.TimedOut? ==> (r.last == None <==> kind.Project? || k == 0))
            && (r.TimedOut? && r.last.Some? ==>
                  var probe, limit := world(k - 1).probe, LimitAt(kind, world, deadline, k - 1);
                  && (r.last.value.ProbeTimedOut? <==> probe.takes > limit)
                  && (r.last.value.NoLaunch? <==> probe.takes <= limit && probe.answer.LaunchFailed?)
                  && (r.last.value.Refused? <==> probe.takes <= limit && probe.answer.NotYet?))
  {
    if k > 0 { assert GoesOn(kind, world, deadline, k - 1); }
    hide Start;
  }

  /** Every probe begun at `up` or later answers that the boot is finished, within `answer`. */
  ghost predicate UpFrom(kind: Kind, world: nat -> Turn, deadline: nat, up: nat, answer: nat) {
    forall k :: Start(kind, world, deadline, k) >= up ==>
      world(k).probe.answer.BootFinished? && world(k).probe.takes <= answer
  }

  /** A probe of a guest that is up fails only for want of time, just before the deadline. */
  lemma FailsOnlyLate(kind: Kind, world: nat -> Turn, deadline: nat, j: nat, up: nat, answer: nat)
    requires UpFrom(kind, world, deadline, up, answer) && answer <= PROBE_LIMIT
    requires GoesOn(kind, world, deadline, j)
    ensures var at := Start(kind, world, deadline, j);
            at >= up ==> at + answer > deadline && Start(kind, world, deadline, j + 1) >= deadline
  {
  }

  lemma TurnIsShort(kind: Kind, world: nat -> Turn, deadline: nat, j: nat)
    ensures Start(kind, world, deadline, j + 1) <= Start(kind, world, deadline, j) + PROBE_LIMIT + PAUSE
  {
  }

  lemma InTime(kind: Kind, world: nat -> Turn, deadline: nat, j: nat)
    requires GoesOn(kind, world, deadline, j)
    ensures Start(kind, world, deadline, j) < deadline && Start(kind, world, deadline, 0) == 0
  {
  }

  /** A loop that goes on past turn `j` began it before the guest was up. */
  lemma NotYetUp(kind: Kind, world: nat -> Turn, deadline: nat, j: nat, up: nat, answer: nat)
    requires UpFrom(kind, world, deadline, up, answer) && answer <= PROBE_LIMIT
    requires up + PROBE_LIMIT + PAUSE + answer <= deadline
    requires GoesOn(kind, world, deadline, j) && (j > 0 ==> GoesOn(kind, world, deadline, j - 1))
    ensures Start(kind, world, deadline, j) < up
  {
    hide Start, UpFrom, GoesOn;
    InTime(kind, world, deadline, j);
    FailsOnlyLate(kind, world, deadline, j, up, answer);
    if j > 0 {
      FailsOnlyLate(kind, world, deadline, j - 1, up, answer);
      TurnIsShort(kind, world, deadline, j - 1);
      Between(Start(kind, world, deadline, j - 1), Start(kind, world, deadline, j), deadline, up, answer);
    }
  }

  /** Turns at `before` and `at`, of which a late one ends at the deadline. */
  lemma Between(before: nat, at: nat, deadline: nat, up: nat, answer: nat)
    requires up + PROBE_LIMIT + PAUSE + answer <= deadline && at < deadline
    requires at <= before + PROBE_LIMIT + PAUSE && (before >= up ==> at >= deadline)
    requires at >= up ==> at + answer > deadline
    ensures at < up
  {
  }

  lemma ReadyInTime(kind: Kind, world: nat -> Turn, deadline: nat, k: nat, up: nat, answer: nat)
    requires UpFrom(kind, world, deadline, up, answer) && answer <= PROBE_LIMIT
    requires Start(kind, world, deadline, k) <= up + PROBE_LIMIT + PAUSE < deadline
    requires Alive(kind, world(k)) && !GoesOn(kind, world, deadline, k)
    ensures Verdict(kind, world, deadline, k).Ready?
    ensures Start(kind, world, deadline, k) + world(k).probe.takes <= up + PROBE_LIMIT + PAUSE + answer
  {
    hide Start;
  }

  /** A guest that is up from some time on is found ready within seven seconds and one answer, if the
      deadline leaves that long and the process lives. */
  lemma UpIsNoticed(kind: Kind, world: nat -> Turn, deadline: nat, k: nat, up: nat, answer: nat)
    requires StopsAt(kind, world, deadline, k)
    requires answer <= PROBE_LIMIT
    requires up + PROBE_LIMIT + PAUSE < deadline && up + PROBE_LIMIT + PAUSE + answer <= deadline
    ensures UpFrom(kind, world, deadline, up, answer) && (forall i :: 0 <= i <= k ==> Alive(kind, world(i))) ==>
              && Verdict(kind, world, deadline, k).Ready?
              && Start(kind, world, deadline, k) + world(k).probe.takes <= up + PROBE_LIMIT + PAUSE + answer
  {
    if UpFrom(kind, world, deadline, up, answer) && (forall i :: 0 <= i <= k ==> Alive(kind, world(i))) {
      assert Start(kind, world, deadline, 0) == 0;
      if k > 0 {
        assert GoesOn(kind, world, deadline, k - 1);
        assert k > 1 ==> GoesOn(kind, world, deadline, k - 2);
        NotYetUp(kind, world, deadline, k - 1, up, answer);
        TurnIsShort(kind, world, deadline, k - 1);
      }
      hide Start, UpFrom, GoesOn, Verdict;
      ReadyInTime(kind, world, deadline, k, up, answer);
    }
  }
}
