/** Whole runs of the spool, from an empty directory, under any sequence of callers. */
module SpoolRuns {
  import opened Text
  import opened LogRecords
  import opened LogSpool
  import opened SpoolFacts
  import RecordIds

  /** Either some caller draws a record id, or a record is appended. */
  datatype Action = Draw(now: U64) | Log(record: Record, readings: Readings)

  function Do(x: Setting, s: Spool, a: Action): Spool {
    match a
    case Draw(now) => s.(counter := RecordIds.Advance(s.counter, now))
    case Log(r, t) => Append(x.codec, x.pid, x.maxBytes, s, r, t)
  }

  function Run(x: Setting, s: Spool, actions: seq<Action>): Spool
    decreases |actions|
  {
    if actions == [] then s else Run(x, Do(x, s, actions[0]), actions[1..])
  }

  /** The id counter stays below the u64 maximum. */
  predicate Counting(x: Setting, s: Spool, actions: seq<Action>)
    decreases |actions|
  {
    actions != [] ==> s.counter < U64_MAX && Counting(x, Do(x, s, actions[0]), actions[1..])
  }

  /** The clock never runs backwards and no append stalls beyond the bound. */
  predicate WellTimed(x: Setting, now: nat, actions: seq<Action>)
    decreases |actions|
  {
    actions != [] ==>
      && (actions[0].Log? ==> Timely(x, now, actions[0].readings))
      && WellTimed(x, Later(now, actions[0]), actions[1..])
  }

  function Later(now: nat, a: Action): nat { if a.Log? then a.readings.write else now }

  function EndTime(now: nat, actions: seq<Action>): nat
    decreases |actions|
  {
    if actions == [] then now else EndTime(Later(now, actions[0]), actions[1..])
  }

  function Logged(actions: seq<Action>): multiset<Record>
    decreases |actions|
  {
    if actions == [] then multiset{}
    else (if actions[0].Log? then multiset{actions[0].record} else multiset{}) + Logged(actions[1..])
  }

  function PrunedBy(x: Setting, s: Spool, actions: seq<Action>): multiset<Record>
    decreases |actions|
  {
    if actions == [] then multiset{}
    else
      (match actions[0]
       case Draw(_) => multiset{}
       case Log(r, t) => Stored(x.codec, Pruned(x.codec, x.pid, x.maxBytes, s, r, t)))
      + PrunedBy(x, Do(x, s, actions[0]), actions[1..])
  }

  lemma StepKeepsInvariant(x: Setting, s: Spool, a: Action)
    requires x.Valid() && Inv(x, s) && s.counter < U64_MAX
    ensures Inv(x, Do(x, s, a))
  {
    match a
    case Draw(n) =>
      forall f | f in s.files ensures FileOk(x, Do(x, s, a).counter, f) {
        FileOkLater(x, s.counter, Do(x, s, a).counter, f);
      }
    case Log(r, t) => AppendKeepsInvariant(x, s, r, t);
  }

  lemma StepKeepsTime(x: Setting, s: Spool, now: nat, a: Action)
    requires x.Valid() && Inv(x, s) && s.counter < U64_MAX && TimedInv(x, s, now)
    requires a.Log? ==> Timely(x, now, a.readings)
    ensures TimedInv(x, Do(x, s, a), Later(now, a))
  {
    if a.Log? { AppendKeepsTime(x, s, now, a.record, a.readings); }
  }

  lemma Chain<T>(s0: multiset<T>, s1: multiset<T>, s2: multiset<T>, p0: multiset<T>, p1: multiset<T>,
                 l0: multiset<T>, l1: multiset<T>)
    requires s1 + p0 == s0 + l0 && s2 + p1 == s1 + l1
    ensures s2 + (p0 + p1) == s0 + (l0 + l1)
  {
    assert s2 + (p0 + p1) == (s2 + p1) + p0;
    assert (s1 + l1) + p0 == (s1 + p0) + l1;
  }

  /** In every state a run reaches, whatever its clock readings, each file is whole lines of one day
      within the limit, and the records in the directory are those logged, less those pruned. */
  lemma {:induction false} EveryRun(x: Setting, s: Spool, actions: seq<Action>)
    requires x.Valid() && Inv(x, s) && Counting(x, s, actions)
    ensures Inv(x, Run(x, s, actions))
    ensures Stored(x.codec, Run(x, s, actions).files) + PrunedBy(x, s, actions)
         == Stored(x.codec, s.files) + Logged(actions)
    decreases |actions|
  {
    if actions != [] {
      var a, rest := actions[0], actions[1..];
      var s' := Do(x, s, a);
      StepKeepsInvariant(x, s, a);
      EveryRun(x, s', rest);
      if a.Log? { AppendConservesRecords(x, s, a.record, a.readings); }
      Chain(Stored(x.codec, s.files), Stored(x.codec, s'.files), Stored(x.codec, Run(x, s', rest).files),
            if a.Log? then Stored(x.codec, Pruned(x.codec, x.pid, x.maxBytes, s, a.record, a.readings)) else multiset{},
            PrunedBy(x, s', rest),
            if a.Log? then multiset{a.record} else multiset{}, Logged(rest));
    }
  }

  lemma EveryRunFromEmpty(x: Setting, actions: seq<Action>)
    requires x.Valid() && Counting(x, Spool([], 0), actions)
    ensures Inv(x, Run(x, Spool([], 0), actions))
    ensures Stored(x.codec, Run(x, Spool([], 0), actions).files) + PrunedBy(x, Spool([], 0), actions) == Logged(actions)
  {
    EveryRun(x, Spool([], 0), actions);
  }

  lemma {:induction false} TimedRun(x: Setting, s: Spool, now: nat, actions: seq<Action>)
    requires x.Valid() && Inv(x, s) && TimedInv(x, s, now) && Counting(x, s, actions) && WellTimed(x, now, actions)
    ensures TimedInv(x, Run(x, s, actions), EndTime(now, actions))
    decreases |actions|
  {
    if actions != [] {
      StepKeepsInvariant(x, s, actions[0]);
      StepKeepsTime(x, s, now, actions[0]);
      TimedRun(x, Do(x, s, actions[0]), Later(now, actions[0]), actions[1..]);
    }
  }

  /** No record written in the last seven days is ever pruned: it is still there at the end of any
      run whose clock has not gone back and has not passed a week from its writing. */
  lemma {:induction false} KeptForAWeek(x: Setting, s: Spool, now: nat, actions: seq<Action>, e: Entry)
    requires x.Valid() && Inv(x, s) && TimedInv(x, s, now) && Counting(x, s, actions) && WellTimed(x, now, actions)
    requires Holds(s.files, e) && EndTime(now, actions) <= e.writtenAt + 7 * 24 * 60 * 60 * 1000
    ensures Holds(Run(x, s, actions).files, e)
    decreases |actions|
  {
    if actions != [] {
      var a, rest := actions[0], actions[1..];
      StepKeepsInvariant(x, s, a);
      StepKeepsTime(x, s, now, a);
      TimeMoves(x, Later(now, a), rest);
      if a.Log? { RecentRecordsSurvive(x, s, now, a.record, a.readings, e); }
      hide TimedInv, Inv, Append, Holds;
      KeptForAWeek(x, Do(x, s, a), Later(now, a), rest, e);
    }
  }

  lemma {:induction false} TimeMoves(x: Setting, now: nat, actions: seq<Action>)
    requires WellTimed(x, now, actions)
    ensures now <= EndTime(now, actions)
    decreases |actions|
  {
    if actions != [] { TimeMoves(x, Later(now, actions[0]), actions[1..]); }
  }

  function All(at: nat): Readings { Readings(at, at, 0, at, at) }

  /** The age bound is exact: for every stall there is a run after which a record of age
      eight days - 1 + twice the stall is still stored. So "never older than eight days" holds of all
      runs if and only if appends do not stall. */
  lemma AgeBoundIsTight(x: Setting, r: Record)
    returns (actions: seq<Action>, e: Entry)
    requires x.Valid() && 2 * |x.codec.Payload(r)| <= x.maxBytes
    ensures Counting(x, Spool([], 0), actions) && WellTimed(x, 0, actions)
    ensures Holds(Run(x, Spool([], 0), actions).files, e)
    ensures EndTime(0, actions) == e.writtenAt + 8 * 24 * 60 * 60 * 1000 + 2 * x.stall - 1
  {
    var d, last := x.stall, DAY - 1 + x.stall + WEEK;
    var t1, t2 := All(0), All(DAY - 1).(write := DAY - 1 + d);
    var t3 := All(last).(write := last + d);
    var a1, a2, a3 := Log(r, t1), Log(r, t2), Log(r, t3);
    actions, e := [a1, a2, a3], Entry(r, 0, 0);
    var p, name := x.codec.Payload(r), DailyName(0);
    DailyNameInjective(0, DAY - 1);
    DailyNameInjective(0, last);
    var s0 := Spool([], 0);
    var f1 := LogFile(name, p, 0, [e]);
    assert Do(x, s0, a1) == Spool([f1], 0);
    var f2 := LogFile(name, p + p, DAY - 1 + d, [e, Entry(r, DAY - 1, DAY - 1 + d)]);
    assert Do(x, Spool([f1], 0), a2) == Spool([f2], 0) by {
      assert Kept([f1], DAY - 1) == [f1];
      assert f1.history + [Entry(r, DAY - 1, DAY - 1 + d)] == f2.history;
    }
    var s3 := Do(x, Spool([f2], 0), a3);
    assert f2 in s3.files by {
      assert Kept([f2], last) == [f2];
      WriteFacts([f2], DailyName(last), p, Entry(r, last, last + d));
      assert SizeOf([f2], DailyName(last)) == 0;
    }
    assert actions[1..] == [a2, a3] && actions[1..][1..] == [a3] && actions[1..][1..][1..] == [];
    assert Run(x, s0, actions) == Run(x, Spool([f1], 0), [a2, a3]);
    assert Run(x, Spool([f1], 0), [a2, a3]) == Run(x, Spool([f2], 0), [a3]);
    assert Run(x, Spool([f2], 0), [a3]) == Run(x, s3, []) == s3;
    assert WellTimed(x, DAY - 1 + d, [a3]) && Counting(x, Spool([f2], 0), [a3]);
    assert WellTimed(x, 0, [a2, a3]) && Counting(x, Spool([f1], 0), [a2, a3]);
    assert EndTime(0, actions) == EndTime(0, [a2, a3]) == EndTime(DAY - 1 + d, [a3]) == EndTime(last + d, []);
    assert e in f2.history;
  }

  /** After any run that ends in an append, on a clock that does not go back, nothing stored is older
      than the bound. */
  lemma {:induction false} NothingOlder(x: Setting, s: Spool, now: nat, actions: seq<Action>, e: Entry)
    requires x.Valid() && Inv(x, s) && TimedInv(x, s, now) && Counting(x, s, actions) && WellTimed(x, now, actions)
    requires actions != [] && actions[|actions| - 1].Log?
    requires Holds(Run(x, s, actions).files, e)
    ensures EndTime(now, actions) < e.writtenAt + 8 * 24 * 60 * 60 * 1000 + 2 * x.stall
    decreases |actions|
  {
    var a, rest := actions[0], actions[1..];
    if rest == [] {
      assert Run(x, Do(x, s, a), rest) == Do(x, s, a);
      assert EndTime(Later(now, a), rest) == a.readings.write;
      OldRecordsAreGone(x, s, now, a.record, a.readings, e);
    } else {
      StepKeepsInvariant(x, s, a);
      StepKeepsTime(x, s, now, a);
      NothingOlder(x, Do(x, s, a), Later(now, a), rest, e);
    }
  }
}
