/** Reading logs while they are written: pagination over the states of a running spool. */
module LogWalks {
  import opened Text
  import opened LogRecords
  import opened LogSpool
  import opened SpoolFacts
  import opened SpoolRuns
  import opened LogQuery
  import opened LogPaging
  import RecordIds

  lemma {:induction false} FilterKeeps(rs: seq<Record>, scope: Option<string>, resourceId: Option<string>)
    ensures multiset(Filter(rs, scope, resourceId)) <= multiset(rs)
  {
    hide Wanted;
    if rs != [] {
      FilterKeeps(rs[1..], scope, resourceId);
      assert rs == [rs[0]] + rs[1..];
    }
  }

  lemma EntryRecords(history: seq<Entry>, e: Entry)
    requires e in history
    ensures e.record in RecordsOf(history)
  {
    if history[0] != e { EntryRecords(history[1..], e); }
  }

  lemma SpoolNamesAreLogFiles(f: LogFile, pid: U32, c: U64)
    requires f.history != [] && Named(f, pid, c)
    ensures IsLogFile(f.name)
  {
    if f.name == DailyName(Day(f) * DAY) {
      assert f.name[|f.name| - 6..] == ".jsonl";
    } else {
      var k: U64 :| k < c && f.name == OverflowName(RecordIds.Format(k, pid));
      assert f.name[|f.name| - 6..] == ".jsonl";
    }
  }

  lemma {:induction false} CollectIsStored(codec: Codec, dir: Directory, scope: Option<string>, resourceId: Option<string>)
    ensures multiset(Collect(codec, dir, scope, resourceId)) <= Stored(codec, dir)
  {
    if dir != [] {
      FilterKeeps(codec.Parse(dir[0].content), scope, resourceId);
      CollectIsStored(codec, dir[1..], scope, resourceId);
    }
  }

  /** A bag of records no two of which share (timestamp, id). */
  ghost predicate Keyed(m: multiset<Record>) {
    && (forall a :: a in m ==> m[a] == 1)
    && (forall a, b :: a in m && b in m && SameKey(a, b) ==> a == b)
  }

  lemma KeyedSequence(s: seq<Record>, m: multiset<Record>)
    requires Keyed(m) && multiset(s) <= m
    ensures DistinctKeys(s)
  {
    forall i, j | 0 <= i < j < |s| ensures !SameKey(s[i], s[j]) {
      assert s[i] in multiset(s) && s[j] in multiset(s);
      assert s[i] in m && s[j] in m;
      if s[i] == s[j] { RepeatCount(s, i, j); }
    }
  }

  /** When the records logged have distinct keys, so has every list a query collects. */
  lemma CollectedKeysDistinct(x: Setting, actions: seq<Action>, scope: Option<string>, resourceId: Option<string>)
    requires x.Valid() && Counting(x, Spool([], 0), actions) && Keyed(Logged(actions))
    ensures DistinctKeys(Collect(x.codec, Run(x, Spool([], 0), actions).files, scope, resourceId))
  {
    var dir := Run(x, Spool([], 0), actions).files;
    EveryRunFromEmpty(x, actions);
    CollectIsStored(x.codec, dir, scope, resourceId);
    assert Stored(x.codec, dir) <= Logged(actions);
    KeyedSequence(Collect(x.codec, dir, scope, resourceId), Logged(actions));
  }

  // ----- the ids of logged records are drawn -----

  /** Every record logged carries an id some caller has drawn, and no draw is used twice; between a draw
      and its record anything may happen. `pending` holds the ids drawn and not yet used. */
  predicate Drawn(x: Setting, s: Spool, pending: set<string>, actions: seq<Action>)
    decreases |actions|
  {
    actions != [] ==>
      var next, rest := Do(x, s, actions[0]), actions[1..];
      match actions[0]
      case Draw(_) => Drawn(x, next, pending + {RecordIds.Format(s.counter, x.pid)}, rest)
      case Log(r, _) => r.id in pending && Drawn(x, next, pending - {r.id}, rest)
  }

  ghost predicate EarlierId(id: string, counter: U64, pid: U32) {
    exists k: U64 :: k < counter && id == RecordIds.Format(k, pid)
  }

  ghost predicate LaterId(id: string, counter: U64, pid: U32) {
    exists k: U64 :: k >= counter && id == RecordIds.Format(k, pid)
  }

  lemma EarlierIsNotLater(id: string, c: U64, d: U64, pid: U32)
    requires EarlierId(id, c, pid) && c <= d
    ensures !LaterId(id, d, pid)
  {
    var k: U64 :| k < c && id == RecordIds.Format(k, pid);
    forall m: U64 | m >= d ensures id != RecordIds.Format(m, pid) { RecordIds.FormatOrder(k, pid, m, pid); }
  }

  lemma CounterGrows(x: Setting, s: Spool, a: Action)
    ensures s.counter <= Do(x, s, a).counter
    ensures a.Draw? && s.counter < U64_MAX ==> s.counter < Do(x, s, a).counter
  {
  }

  ghost predicate DrawnBy(r: Record, pending: set<string>, counter: U64, pid: U32) {
    r.id in pending || LaterId(r.id, counter, pid)
  }

  lemma KeyedWith(r: Record, m: multiset<Record>)
    requires Keyed(m) && forall q :: q in m ==> q.id != r.id
    ensures Keyed(multiset{r} + m)
  {
    assert r !in m;
  }

  lemma AfterLog(m: multiset<Record>, r: Record, pending: set<string>, c: U64, d: U64, pid: U32)
    requires Keyed(m) && c <= d && EarlierId(r.id, c, pid) && r.id in pending
    requires forall q :: q in m ==> DrawnBy(q, pending - {r.id}, d, pid)
    ensures Keyed(multiset{r} + m)
    ensures forall q :: q in multiset{r} + m ==> DrawnBy(q, pending, c, pid)
  {
    forall q | q in m ensures q.id != r.id && DrawnBy(q, pending, c, pid) {
      assert DrawnBy(q, pending - {r.id}, d, pid);
      EarlierIsNotLater(r.id, c, d, pid);
    }
    KeyedWith(r, m);
  }

  lemma AfterDraw(m: multiset<Record>, pending: set<string>, c: U64, d: U64, pid: U32)
    requires c <= d && forall q :: q in m ==> DrawnBy(q, pending + {RecordIds.Format(c, pid)}, d, pid)
    ensures forall q :: q in m ==> DrawnBy(q, pending, c, pid)
  {
    hide RecordIds.Format;
    forall q | q in m ensures DrawnBy(q, pending, c, pid) {
      assert DrawnBy(q, pending + {RecordIds.Format(c, pid)}, d, pid);
    }
  }

  lemma {:induction false} DrawnFacts(x: Setting, s: Spool, pending: set<string>, actions: seq<Action>)
    requires Counting(x, s, actions) && Drawn(x, s, pending, actions)
    requires forall id :: id in pending ==> EarlierId(id, s.counter, x.pid)
    ensures Keyed(Logged(actions))
    ensures forall r :: r in Logged(actions) ==> DrawnBy(r, pending, s.counter, x.pid)
    decreases |actions|
  {
    if actions != [] {
      var a, rest := actions[0], actions[1..];
      var next := Do(x, s, a);
      CounterGrows(x, s, a);
      hide Do, RecordIds.Format;
      var left := if a.Draw? then pending + {RecordIds.Format(s.counter, x.pid)} else pending - {a.record.id};
      DrawnFacts(x, next, left, rest);
      hide Counting, Drawn;
      if a.Log? {
        AfterLog(Logged(rest), a.record, pending, s.counter, next.counter, x.pid);
      } else {
        AfterDraw(Logged(rest), pending, s.counter, next.counter, x.pid);
        assert multiset{} + Logged(rest) == Logged(rest);
      }
    }
  }

  /** Records that carry drawn ids have distinct keys, whatever the clocks say and however draws,
      appends and rotations interleave. */
  lemma DrawnIdsAreKeys(x: Setting, actions: seq<Action>)
    requires Counting(x, Spool([], 0), actions) && Drawn(x, Spool([], 0), {}, actions)
    ensures Keyed(Logged(actions))
  {
    DrawnFacts(x, Spool([], 0), {}, actions);
  }

  // ----- a walk over the states of a run -----

  /** The spool as request `k` finds it: everything done up to then, starting from nothing. */
  function StateAt(x: Setting, history: seq<Action>): Spool { Run(x, Spool([], 0), history) }

  /** Request `k` of the walk is answered after the first `upTo[k]` actions of the run. */
  ghost predicate WalksOver(x: Setting, actions: seq<Action>, upTo: seq<nat>, v: seq<Visit>, limit: nat,
                            scope: Option<string>, resourceId: Option<string>)
  {
    && |upTo| == |v|
    && (forall k :: 0 <= k < |v| ==> upTo[k] <= |actions| && AnsweredAt(x, actions[..upTo[k]], v[k], limit, scope, resourceId))
    && (forall j, k :: 0 <= j < k < |v| ==> upTo[j] <= upTo[k])
    && (v != [] ==> v[0].cursor == None)
    && (forall k :: 0 < k < |v| ==> Follows(v, k))
  }

  ghost predicate AnsweredAt(x: Setting, done: seq<Action>, v: Visit, limit: nat, scope: Option<string>, resourceId: Option<string>) {
    var all := Collect(x.codec, StateAt(x, done).files, scope, resourceId);
    v.view == Sort(all) && Answers(all, v.cursor, limit, v.page)
  }

  lemma {:induction false} RunSplit(x: Setting, s: Spool, a: seq<Action>, b: seq<Action>)
    requires Counting(x, s, a + b)
    ensures Counting(x, s, a) && Counting(x, Run(x, s, a), b)
    ensures Run(x, s, a + b) == Run(x, Run(x, s, a), b)
    ensures PrunedBy(x, s, a + b) == PrunedBy(x, s, a) + PrunedBy(x, Run(x, s, a), b)
    decreases |a|
  {
    if a == [] {
      assert a + b == b;
    } else {
      assert (a + b)[1..] == a[1..] + b && (a + b)[0] == a[0];
      hide Do;
      RunSplit(x, Do(x, s, a[0]), a[1..], b);
    }
  }

  lemma {:induction false} TimeSplit(x: Setting, now: nat, a: seq<Action>, b: seq<Action>)
    requires WellTimed(x, now, a + b)
    ensures WellTimed(x, now, a) && WellTimed(x, EndTime(now, a), b)
    ensures EndTime(now, a + b) == EndTime(EndTime(now, a), b)
    decreases |a|
  {
    if a == [] {
      assert a + b == b;
    } else {
      assert (a + b)[1..] == a[1..] + b && (a + b)[0] == a[0];
      TimeSplit(x, Later(now, a[0]), a[1..], b);
    }
  }

  lemma {:induction false} LoggedSplit(a: seq<Action>, b: seq<Action>)
    ensures Logged(a + b) == Logged(a) + Logged(b)
    decreases |a|
  {
    if a == [] {
      assert a + b == b;
    } else {
      assert (a + b)[1..] == a[1..] + b && (a + b)[0] == a[0];
      LoggedSplit(a[1..], b);
    }
  }

  lemma KeyedPart(a: multiset<Record>, b: multiset<Record>)
    requires Keyed(a + b)
    ensures Keyed(a)
  {
    forall r | r in a ensures a[r] == 1 { assert r in a + b; }
    forall p, q | p in a && q in a && SameKey(p, q) ensures p == q { assert p in a + b && q in a + b; }
  }

  /** When keys are distinct, an answer is the page of the sorted view. */
  lemma DistinctIsAnswered(all: seq<Record>, v: Visit, limit: nat)
    requires DistinctKeys(all) && v.view == Sort(all) && Answers(all, v.cursor, limit, v.page)
    ensures Answered(v, limit)
  {
    AnswerIsUnique(all, v.cursor, limit, v.page);
    SortFacts(all);
    DistinctAfterSort(all, Sort(all));
  }

  lemma VisitIsAnswered(x: Setting, actions: seq<Action>, n: nat, v: Visit, limit: nat, scope: Option<string>, resourceId: Option<string>)
    requires x.Valid() && Counting(x, Spool([], 0), actions) && Keyed(Logged(actions)) && n <= |actions|
    requires AnsweredAt(x, actions[..n], v, limit, scope, resourceId)
    ensures Answered(v, limit)
  {
    hide Answered, Answers, Sort, Keyed, DistinctKeys, Collect, Run, Counting, Logged;
    assert actions == actions[..n] + actions[n..];
    RunSplit(x, Spool([], 0), actions[..n], actions[n..]);
    LoggedSplit(actions[..n], actions[n..]);
    KeyedPart(Logged(actions[..n]), Logged(actions[n..]));
    CollectedKeysDistinct(x, actions[..n], scope, resourceId);
    DistinctIsAnswered(Collect(x.codec, StateAt(x, actions[..n]).files, scope, resourceId), v, limit);
  }

  /** A record the spool stores and a query asks for is collected. */
  lemma {:induction false} StoredIsInFile(codec: Codec, dir: Directory, r: Record) returns (f: LogFile)
    requires r in Stored(codec, dir)
    ensures f in dir && r in codec.Parse(f.content)
  {
    if r in codec.Parse(dir[0].content) {
      f := dir[0];
    } else {
      f := StoredIsInFile(codec, dir[1..], r);
    }
  }

  lemma StoredIsCollected(x: Setting, s: Spool, scope: Option<string>, resourceId: Option<string>, r: Record)
    requires Inv(x, s) && r in Stored(x.codec, s.files) && Wanted(r, scope, resourceId)
    ensures r in Collect(x.codec, s.files, scope, resourceId)
  {
    var f := StoredIsInFile(x.codec, s.files, r);
    assert FileOk(x, s.counter, f);
    SpoolNamesAreLogFiles(f, x.pid, s.counter);
    CollectedExactly(x.codec, s.files, scope, resourceId, r);
  }

  /** What was stored after `a` and is not pruned by the end of `a + b` is stored then. */
  lemma NotPrunedIsStored(x: Setting, a: seq<Action>, b: seq<Action>, r: Record)
    requires x.Valid() && Counting(x, Spool([], 0), a + b)
    requires r in Stored(x.codec, StateAt(x, a).files) && r !in PrunedBy(x, Spool([], 0), a + b)
    ensures r in Stored(x.codec, StateAt(x, a + b).files) && Inv(x, StateAt(x, a + b))
  {
    RunSplit(x, Spool([], 0), a, b);
    LoggedSplit(a, b);
    EveryRunFromEmpty(x, a);
    EveryRunFromEmpty(x, a + b);
    hide Stored, Run, PrunedBy, Logged, Counting, Inv;
    assert r in Logged(a) && r in Logged(a + b);
  }

  /** The records of a view are the wanted ones the spool stores. */
  lemma ViewIsStored(x: Setting, done: seq<Action>, scope: Option<string>, resourceId: Option<string>, v: Visit, limit: nat, r: Record)
    requires AnsweredAt(x, done, v, limit, scope, resourceId)
    ensures r in v.view ==> r in Stored(x.codec, StateAt(x, done).files) && Wanted(r, scope, resourceId)
    ensures Inv(x, StateAt(x, done)) && r in Stored(x.codec, StateAt(x, done).files) && Wanted(r, scope, resourceId) ==> r in v.view
  {
    var dir := StateAt(x, done).files;
    var all := Collect(x.codec, dir, scope, resourceId);
    SortFacts(all);
    CollectIsStored(x.codec, dir, scope, resourceId);
    assert r in v.view <==> r in multiset(v.view);
    assert r in all <==> r in multiset(all);
    CollectedExactly(x.codec, dir, scope, resourceId, r);
    if Inv(x, StateAt(x, done)) && r in Stored(x.codec, dir) && Wanted(r, scope, resourceId) {
      StoredIsCollected(x, StateAt(x, done), scope, resourceId, r);
    }
  }

  lemma ReturnedIsWanted(x: Setting, done: seq<Action>, scope: Option<string>, resourceId: Option<string>, v: Visit, limit: nat, r: Record)
    requires AnsweredAt(x, done, v, limit, scope, resourceId) && Answered(v, limit) && r in v.page.records
    ensures (scope.Some? ==> r.scope == scope.value) && (resourceId.Some? ==> r.resourceId == resourceId || r.jobId == resourceId)
    ensures r in Stored(x.codec, StateAt(x, done).files)
  {
    PageFacts(v.view, v.cursor, limit);
    ViewIsStored(x, done, scope, resourceId, v, limit, r);
  }

  lemma WalkIsAnswered(x: Setting, actions: seq<Action>, upTo: seq<nat>, v: seq<Visit>, limit: nat,
                       scope: Option<string>, resourceId: Option<string>)
    requires x.Valid() && Counting(x, Spool([], 0), actions) && Drawn(x, Spool([], 0), {}, actions)
    requires WalksOver(x, actions, upTo, v, limit, scope, resourceId)
    ensures IsWalk(v, limit)
  {
    DrawnIdsAreKeys(x, actions);
    hide Keyed, Drawn, Counting, Answered, AnsweredAt;
    forall k | 0 <= k < |v| ensures Answered(v[k], limit) {
      VisitIsAnswered(x, actions, upTo[k], v[k], limit, scope, resourceId);
    }
  }

  /** Appends, rotations and prunes, in any number, between the requests: no record is returned twice,
      and what is returned is stored then and has the scope and the resource or job asked for. */
  lemma NoDuplicatesWhileLogging(x: Setting, actions: seq<Action>, upTo: seq<nat>, v: seq<Visit>, limit: nat,
                                 scope: Option<string>, resourceId: Option<string>)
    requires x.Valid() && Counting(x, Spool([], 0), actions) && Drawn(x, Spool([], 0), {}, actions)
    requires WalksOver(x, actions, upTo, v, limit, scope, resourceId)
    ensures IsWalk(v, limit)
    ensures forall r, a: nat, i: nat :: ReturnedAt(v, a, i, r) ==> ReturnedOnlyAt(v, a, i, r)
    ensures forall r, a: nat, i: nat :: ReturnedAt(v, a, i, r) ==>
              && r in Stored(x.codec, StateAt(x, actions[..upTo[a]]).files)
              && (scope.Some? ==> r.scope == scope.value)
              && (resourceId.Some? ==> r.resourceId == resourceId || r.jobId == resourceId)
  {
    WalkIsAnswered(x, actions, upTo, v, limit, scope, resourceId);
    hide Drawn, Counting, Answered, AnsweredAt, Stored, StateAt;
    forall r, a: nat, i: nat | ReturnedAt(v, a, i, r) ensures ReturnedOnlyAt(v, a, i, r) {
      forall b: nat, j: nat | ReturnedAt(v, b, j, r) ensures b == a && j == i {
        NothingTwice(v, limit, r, a, i, b, j);
      }
    }
    forall r, a: nat, i: nat | ReturnedAt(v, a, i, r)
      ensures r in Stored(x.codec, StateAt(x, actions[..upTo[a]]).files) && (scope.Some? ==> r.scope == scope.value)
      ensures resourceId.Some? ==> r.resourceId == resourceId || r.jobId == resourceId
    {
      ReturnedIsWanted(x, actions[..upTo[a]], scope, resourceId, v[a], limit, r);
    }
  }

  lemma StoredIsSeen(x: Setting, actions: seq<Action>, n: nat, scope: Option<string>, resourceId: Option<string>, v: Visit, limit: nat, r: Record)
    requires x.Valid() && Counting(x, Spool([], 0), actions) && n <= |actions| && Wanted(r, scope, resourceId)
    requires AnsweredAt(x, actions[..n], v, limit, scope, resourceId) && r in Stored(x.codec, StateAt(x, actions[..n]).files)
    ensures r in v.view
  {
    hide Counting, Stored, Inv, AnsweredAt, Wanted, Run, PrunedBy, Logged;
    assert actions == actions[..n] + actions[n..];
    RunSplit(x, Spool([], 0), actions[..n], actions[n..]);
    EveryRunFromEmpty(x, actions[..n]);
    ViewIsStored(x, actions[..n], scope, resourceId, v, limit, r);
  }

  /** A wanted record stored at the first request of a walk, and not pruned by its last, was seen at every
      request. */
  lemma SeenThroughout(x: Setting, actions: seq<Action>, upTo: seq<nat>, v: seq<Visit>, limit: nat,
                       scope: Option<string>, resourceId: Option<string>, r: Record, k: nat)
    requires x.Valid() && Counting(x, Spool([], 0), actions)
    requires WalksOver(x, actions, upTo, v, limit, scope, resourceId) && k < |v|
    requires r in Stored(x.codec, StateAt(x, actions[..upTo[0]]).files) && Wanted(r, scope, resourceId)
    requires r !in PrunedBy(x, Spool([], 0), actions[..upTo[|v| - 1]])
    ensures r in v[k].view
  {
    hide Counting, PrunedBy, Stored, Inv, AnsweredAt, Wanted;
    var first, here, last := upTo[0], upTo[k], upTo[|v| - 1];
    assert first <= here && here <= last;
    PrefixInParts(actions, first, here);
    PrefixInParts(actions, here, last);
    assert actions == actions[..last] + actions[last..];
    RunSplit(x, Spool([], 0), actions[..last], actions[last..]);
    RunSplit(x, Spool([], 0), actions[..here], actions[here..last]);
    NotPrunedIsStored(x, actions[..first], actions[first..here], r);
    StoredIsSeen(x, actions, here, scope, resourceId, v[k], limit, r);
  }

  lemma PrefixInParts<T>(s: seq<T>, a: nat, b: nat)
    requires a <= b <= |s|
    ensures s[..b] == s[..a] + s[a..b]
  {
  }

  /** And a record that the spool stores at the first request, with the scope and the resource or job
      asked for if any, and that has not been pruned when the last request is answered, is returned exactly
      once by a walk that ran to its end, whatever its age and whatever the clocks said. */
  lemma NothingMissedWhileLogging(x: Setting, actions: seq<Action>, upTo: seq<nat>, v: seq<Visit>, limit: nat,
                                  scope: Option<string>, resourceId: Option<string>, r: Record)
    requires x.Valid() && Counting(x, Spool([], 0), actions) && Drawn(x, Spool([], 0), {}, actions)
    requires WalksOver(x, actions, upTo, v, limit, scope, resourceId)
    requires v != [] && v[|v| - 1].page.next == None
    requires r in Stored(x.codec, StateAt(x, actions[..upTo[0]]).files)
    requires scope.Some? ==> r.scope == scope.value
    requires resourceId.Some? ==> r.resourceId == resourceId || r.jobId == resourceId
    requires r !in PrunedBy(x, Spool([], 0), actions[..upTo[|v| - 1]])
    ensures exists n: nat, i: nat :: ReturnedAt(v, n, i, r) && ReturnedOnlyAt(v, n, i, r)
  {
    NoDuplicatesWhileLogging(x, actions, upTo, v, limit, scope, resourceId);
    assert Wanted(r, scope, resourceId);
    hide Drawn, IsWalk, Counting, Stored, StateAt, Wanted;
    forall k | 0 <= k < |v| ensures r in v[k].view {
      SeenThroughout(x, actions, upTo, v, limit, scope, resourceId, r, k);
    }
    PersistentRecordsReturnedOnce(v, limit, r);
  }

  // ----- records of the last week -----

  /** A record the spool holds at some time, and whose week has not passed by the end of the run, has
      not been pruned. */
  lemma RecentIsNotPruned(x: Setting, actions: seq<Action>, from: nat, e: Entry)
    requires x.Valid() && Counting(x, Spool([], 0), actions) && Keyed(Logged(actions)) && WellTimed(x, 0, actions)
    requires from <= |actions| && Holds(StateAt(x, actions[..from]).files, e) && EndTime(0, actions) <= e.writtenAt + WEEK
    ensures e.record !in PrunedBy(x, Spool([], 0), actions)
  {
    var s0, early, late := Spool([], 0), actions[..from], actions[from..];
    assert actions == early + late;
    RunSplit(x, s0, early, late);
    TimeSplit(x, 0, early, late);
    EveryRunFromEmpty(x, early);
    EveryRunFromEmpty(x, actions);
    TimedRun(x, s0, 0, early);
    KeptForAWeek(x, StateAt(x, early), EndTime(0, early), late, e);
    HeldIsStored(x, StateAt(x, actions), e);
    hide Stored, Run, PrunedBy, Logged, Counting, Inv;
    assert e.record in Logged(actions);
  }

  lemma {:induction false} FileIsStored(codec: Codec, dir: Directory, f: LogFile, r: Record)
    requires f in dir && r in codec.Parse(f.content)
    ensures r in Stored(codec, dir)
  {
    if dir[0] != f { FileIsStored(codec, dir[1..], f, r); }
  }

  lemma HeldIsStored(x: Setting, s: Spool, e: Entry)
    requires x.Valid() && Inv(x, s) && Holds(s.files, e)
    ensures e.record in Stored(x.codec, s.files)
  {
    var f :| f in s.files && e in f.history;
    assert FileOk(x, s.counter, f);
    x.codec.ParseOfRender(RecordsOf(f.history));
    EntryRecords(f.history, e);
    FileIsStored(x.codec, s.files, f, e.record);
  }

  lemma SoFar(x: Setting, done: seq<Action>, rest: seq<Action>)
    requires Counting(x, Spool([], 0), done + rest) && Keyed(Logged(done + rest)) && WellTimed(x, 0, done + rest)
    ensures Counting(x, Spool([], 0), done) && Keyed(Logged(done)) && WellTimed(x, 0, done)
  {
    hide Keyed, Counting, WellTimed, Logged;
    RunSplit(x, Spool([], 0), done, rest);
    TimeSplit(x, 0, done, rest);
    LoggedSplit(done, rest);
    KeyedPart(Logged(done), Logged(rest));
  }

  lemma HeldEarlier(x: Setting, early: seq<Action>, late: seq<Action>, e: Entry)
    requires x.Valid() && Counting(x, Spool([], 0), early + late) && Holds(StateAt(x, early).files, e)
    ensures Inv(x, StateAt(x, early)) && e.record in Stored(x.codec, StateAt(x, early).files)
  {
    hide Holds, Inv, Counting, Stored;
    RunSplit(x, Spool([], 0), early, late);
    EveryRunFromEmpty(x, early);
    HeldIsStored(x, StateAt(x, early), e);
  }

  lemma RecentSoFar(x: Setting, actions: seq<Action>, first: nat, last: nat, e: Entry)
    requires x.Valid() && Counting(x, Spool([], 0), actions) && Keyed(Logged(actions)) && WellTimed(x, 0, actions)
    requires first <= last <= |actions| && Holds(StateAt(x, actions[..first]).files, e)
    requires EndTime(0, actions[..last]) <= e.writtenAt + WEEK
    ensures e.record !in PrunedBy(x, Spool([], 0), actions[..last])
    ensures Inv(x, StateAt(x, actions[..first])) && e.record in Stored(x.codec, StateAt(x, actions[..first]).files)
  {
    hide Keyed, Holds, Inv, Counting, WellTimed, EndTime, Logged, PrunedBy, Stored, StateAt;
    var done := actions[..last];
    assert actions == done + actions[last..] && done[..first] == actions[..first];
    SoFar(x, done, actions[last..]);
    RecentIsNotPruned(x, done, first, e);
    assert done == done[..first] + done[first..];
    HeldEarlier(x, done[..first], done[first..], e);
  }

  lemma WalkBounds(x: Setting, actions: seq<Action>, upTo: seq<nat>, v: seq<Visit>, limit: nat,
                   scope: Option<string>, resourceId: Option<string>)
    requires WalksOver(x, actions, upTo, v, limit, scope, resourceId) && v != []
    ensures |upTo| == |v| && upTo[0] <= upTo[|v| - 1] <= |actions|
    ensures AnsweredAt(x, actions[..upTo[0]], v[0], limit, scope, resourceId)
  {
    hide AnsweredAt;
  }

  /** On a clock that does not go back: a matching record held at the first request, and not a week old
      when the last one is answered, is returned exactly once. */
  lemma NothingRecentMissed(x: Setting, actions: seq<Action>, upTo: seq<nat>, v: seq<Visit>, limit: nat,
                            scope: Option<string>, resourceId: Option<string>, e: Entry)
    requires x.Valid() && Counting(x, Spool([], 0), actions) && Drawn(x, Spool([], 0), {}, actions)
    requires WellTimed(x, 0, actions) && WalksOver(x, actions, upTo, v, limit, scope, resourceId)
    requires v != [] && v[|v| - 1].page.next == None
    requires Holds(StateAt(x, actions[..upTo[0]]).files, e)
    requires scope.Some? ==> e.record.scope == scope.value
    requires resourceId.Some? ==> e.record.resourceId == resourceId || e.record.jobId == resourceId
    requires EndTime(0, actions[..upTo[|v| - 1]]) <= e.writtenAt + WEEK
    ensures exists n: nat, i: nat :: ReturnedAt(v, n, i, e.record) && ReturnedOnlyAt(v, n, i, e.record)
  {
    WalkBounds(x, actions, upTo, v, limit, scope, resourceId);
    DrawnIdsAreKeys(x, actions);
    hide WalksOver, Drawn, Counting, WellTimed, Holds, AnsweredAt, PrunedBy, Stored, Inv, EndTime, Keyed, StateAt;
    RecentSoFar(x, actions, upTo[0], upTo[|v| - 1], e);
    NothingMissedWhileLogging(x, actions, upTo, v, limit, scope, resourceId, e.record);
  }
}
