/** Updates of one host over the releases of the agent, each release with its bundle of migrations. */
module MigrationRuns {
  import opened Text
  import opened Migrations

  // ----- releases and updates -----

  ghost predicate ValidIds(releases: seq<seq<string>>) {
    forall k, id :: 0 <= k < |releases| && id in releases[k] ==> IsId(id)
  }

  predicate Within(a: seq<string>, b: seq<string>) { forall id :: id in a ==> id in b }

  /** Bundles are cumulative: nothing released is ever removed. Each is written in id order. */
  ghost predicate Growing(releases: seq<seq<string>>) {
    && (forall k :: 0 <= k < |releases| ==> SortedBundle(releases[k]))
    && (forall i, j :: 0 <= i < j < |releases| ==> Within(releases[i], releases[j]))
  }

  /** Every release adds greater ids only. */
  predicate Appending(releases: seq<seq<string>>) {
    forall i, j :: 0 <= i < j < |releases| ==> releases[i] <= releases[j]
  }

  ghost predicate NoDashPairs(releases: seq<seq<string>>) {
    forall k :: 0 <= k < |releases| ==> NoDashPair(releases[k])
  }

  /** One update to one of the releases. */
  datatype Step = Step(release: nat, update: Update)

  /** Each update has a fate for every script of its bundle. */
  predicate Fits(releases: seq<seq<string>>, us: seq<Step>) {
    forall i :: 0 <= i < |us| ==> us[i].release < |releases| && |us[i].update.fates| == |releases[us[i].release]|
  }

  /** The newest release among some updates. */
  function Newest(us: seq<Step>): (n: nat)
    requires us != []
    ensures forall i :: 0 <= i < |us| ==> us[i].release <= n
    ensures exists i :: 0 <= i < |us| && us[i].release == n
  {
    var k := |us| - 1;
    if k == 0 || Newest(us[..k]) < us[k].release then us[k].release else Newest(us[..k])
  }

  /** Updates one after the other, each with its bundle as the loop lists it. */
  function RunUpdates(releases: seq<seq<string>>, us: seq<Step>, h: Host): Host
    requires Fits(releases, us)
  {
    if us == [] then h
    else
      var k := |us| - 1;
      UpdateHost(Listing(releases[us[k].release]), us[k].update, RunUpdates(releases, us[..k], h)).0
  }

  function NewHost(binary: Option<string>): Host { Host(Progress(None, []), binary) }

  ghost predicate Consistent(all: seq<string>, p: Progress) { exists r: nat, d: nat :: Inv(all, p, r, d) }

  /** After these updates what has completed is a prefix of the newest bundle among theirs, in order, with
      at most the last of it unrecorded. */
  ghost predicate KeepsPrefix(releases: seq<seq<string>>, us: seq<Step>, binary: Option<string>)
    requires Fits(releases, us)
  {
    us != [] ==> Consistent(releases[Newest(us)], RunUpdates(releases, us, NewHost(binary)).progress)
  }

  // ----- when every release appends -----

  lemma InvExtends(a: seq<string>, b: seq<string>, p: Progress, r: nat, d: nat)
    requires Inv(a, p, r, d) && a <= b
    ensures Inv(b, p, r, d)
  {
    assert b[..d] == a[..d] && b[..r] == a[..r];
    forall i | 0 <= i < |p.events| ensures Among(p.events[i], b, r, d) { assert Among(p.events[i], a, r, d); }
  }

  /** A bundle is a prefix of those of later releases. */
  lemma Earlier(releases: seq<seq<string>>, i: nat, j: nat)
    requires Appending(releases) && i <= j < |releases|
    ensures releases[i] <= releases[j]
  {
  }

  lemma {:induction false} EverySequenceOfUpdates(releases: seq<seq<string>>, us: seq<Step>, binary: Option<string>)
    returns (r: nat, d: nat)
    requires Growing(releases) && Appending(releases) && NoDashPairs(releases)
    requires Fits(releases, us) && us != []
    ensures Inv(releases[Newest(us)], RunUpdates(releases, us, NewHost(binary)).progress, r, d)
  {
    var k := |us| - 1;
    var newest, before := releases[Newest(us)], us[..k];
    var h := RunUpdates(releases, before, NewHost(binary));
    r, d := 0, 0;
    if k > 0 {
      r, d := EverySequenceOfUpdates(releases, before, binary);
      Earlier(releases, Newest(before), Newest(us));
      InvExtends(releases[Newest(before)], newest, h.progress, r, d);
    }
    Earlier(releases, us[k].release, Newest(us));
    hide Inv, SortedBundle, Appending;
    r, d := UpdateKeepsInvariant(newest, releases[us[k].release], us[k].update, h, r, d);
  }

  // ----- what holds whatever is released -----

  /** No script runs after it, or a later one, has been recorded. */
  predicate NeverAgain(events: seq<Event>) {
    forall i, j :: 0 <= i < j < |events| && events[i].Wrote? && events[j].Ran? ==> Less(events[i].id, events[j].id)
  }

  /** And nothing recorded is beyond what the state file says. */
  ghost predicate Settled(p: Progress) {
    && NeverAgain(p.events)
    && forall i :: 0 <= i < |p.events| && p.events[i].Wrote? ==> !Less(ReadLast(p.file), p.events[i].id)
  }

  lemma RanKeepsSettled(p: Progress, id: string)
    requires Settled(p) && Less(ReadLast(p.file), id)
    ensures Settled(p.(events := p.events + [Ran(id)]))
  {
    var e := p.events + [Ran(id)];
    forall i | 0 <= i < |p.events| && e[i].Wrote? ensures Less(e[i].id, id) { NotPast(e[i].id, ReadLast(p.file), id); }
  }

  lemma RecordedKeepsSettled(p: Progress, id: string)
    requires Settled(p) && Less(ReadLast(p.file), id) && IsId(id)
    ensures Settled(RunAndRecord(p, id)) && ReadLast(RunAndRecord(p, id).file) == id
  {
    StateRoundTrip(id);
    RanKeepsSettled(p, id);
    var ran := p.events + [Ran(id)];
    var q := RunAndRecord(p, id);
    assert q.events == ran + [Wrote(id)];
    LessIrreflexive(id);
    forall i | 0 <= i < |q.events| && q.events[i].Wrote? ensures !Less(id, q.events[i].id) {
      if i < |p.events| {
        NotPast(p.events[i].id, ReadLast(p.file), id);
        LessAsymmetric(p.events[i].id, id);
      }
    }
  }

  lemma {:induction false} ApplyKeepsSettled(bundle: seq<string>, fates: seq<Fate>, k: nat, last: string, p: Progress)
    requires k <= |bundle| == |fates| && (forall id :: id in bundle ==> IsId(id))
    requires Settled(p) && last == ReadLast(p.file)
    ensures Settled(ApplyFrom(bundle, fates, k, last, p).0)
    decreases |bundle| - k
  {
    hide Settled, ReadLast, IsId;
    if k < |bundle| {
      var id := bundle[k];
      if !Less(last, id) {
        ApplyKeepsSettled(bundle, fates, k + 1, last, p);
      } else if fates[k] == RanOnly {
        RanKeepsSettled(p, id);
      } else if fates[k] == Recorded {
        RecordedKeepsSettled(p, id);
        ApplyKeepsSettled(bundle, fates, k + 1, id, RunAndRecord(p, id));
      }
    }
  }

  lemma IncreasingIsDistinct(ids: seq<string>)
    requires IdOrdered(ids)
    ensures forall i, j :: 0 <= i < j < |ids| ==> ids[i] != ids[j]
  {
    forall i, j | 0 <= i < j < |ids| ensures ids[i] != ids[j] { LessIrreflexive(ids[i]); }
  }

  lemma {:induction false} ListingMembers(ids: seq<string>)
    ensures forall x :: x in Listing(ids) <==> x in ids
  {
    if ids != [] {
      ListingMembers(ids[1..]);
      assert ids == [ids[0]] + ids[1..];
      InsertMembers(ids[0], Listing(ids[1..]));
    }
  }

  lemma UpdateKeepsSettled(bundle: seq<string>, u: Update, h: Host)
    requires (forall id :: id in bundle ==> IsId(id)) && |u.fates| == |bundle| && Settled(h.progress)
    ensures Settled(UpdateHost(Listing(bundle), u, h).0.progress)
  {
    ListingMembers(bundle);
    if u.prepared { ApplyKeepsSettled(Listing(bundle), u.fates, 0, ReadLast(h.progress.file), h.progress); }
  }

  /** Whatever bundles are released, with dash pairs or not, growing or not, and in whatever order a host
      takes them: over any updates, stopped anywhere, no migration runs again once it, or one with a
      greater id, has been recorded. */
  lemma {:induction false} RecordedNeverRunsAgain(releases: seq<seq<string>>, us: seq<Step>, binary: Option<string>)
    requires ValidIds(releases) && Fits(releases, us)
    ensures Settled(RunUpdates(releases, us, NewHost(binary)).progress)
  {
    if us != [] {
      var k := |us| - 1;
      RecordedNeverRunsAgain(releases, us[..k], binary);
      hide Settled, IsId;
      UpdateKeepsSettled(releases[us[k].release], us[k].update, RunUpdates(releases, us[..k], NewHost(binary)));
    }
  }

  // ----- the installed binary -----

  /** Whatever is released and in whatever order: the binary on a host is the first one, or that of an
      update whose preparation, repairs, download with its check, stop and installation all succeeded and
      whose pending migrations had all been recorded by then. */
  lemma {:induction false} InstalledWasChecked(releases: seq<seq<string>>, us: seq<Step>, binary: Option<string>)
    requires Fits(releases, us)
    ensures var h := RunUpdates(releases, us, NewHost(binary));
            h.binary == binary || exists i :: 0 <= i < |us| && h.binary == Some(us[i].update.newBinary) && InstalledBy(releases, us, binary, i)
  {
    if us != [] {
      var k := |us| - 1;
      InstalledWasChecked(releases, us[..k], binary);
      var before := RunUpdates(releases, us[..k], NewHost(binary));
      var bundle := Listing(releases[us[k].release]);
      UpdatesExactly(bundle, us[k].update, before);
      hide AllDone, Listing, Installs, PutsBack, UpdateHost;
      if RunUpdates(releases, us, NewHost(binary)).binary != before.binary {
        assert InstalledBy(releases, us, binary, k);
      } else if before.binary != binary {
        var i :| 0 <= i < k && before.binary == Some(us[..k][i].update.newBinary) && InstalledBy(releases, us[..k], binary, i);
        assert us[..k][..i] == us[..i];
        assert InstalledBy(releases, us, binary, i);
      }
    }
  }

  predicate InstalledBy(releases: seq<seq<string>>, us: seq<Step>, binary: Option<string>, i: nat)
    requires Fits(releases, us) && i < |us|
  {
    var bundle, u, before := Listing(releases[us[i].release]), us[i].update, RunUpdates(releases, us[..i], NewHost(binary));
    Installs(u) && AllDone(bundle, u.fates, ReadLast(before.progress.file), |bundle|)
  }

  // ----- ids that come too late -----

  /** `x` has not run, and the state file is not before it. */
  predicate TooLate(p: Progress, x: string) { Ran(x) !in p.events && !Less(ReadLast(p.file), x) }

  lemma RecordedKeepsTooLate(p: Progress, id: string, x: string)
    requires TooLate(p, x) && Less(ReadLast(p.file), id) && IsId(id)
    ensures TooLate(RunAndRecord(p, id), x) && ReadLast(RunAndRecord(p, id).file) == id
  {
    StateRoundTrip(id);
    if Less(id, x) { LessTransitive(ReadLast(p.file), id, x); }
  }

  lemma {:induction false} ApplyKeepsTooLate(bundle: seq<string>, fates: seq<Fate>, k: nat, last: string, p: Progress, x: string)
    requires k <= |bundle| == |fates| && (forall id :: id in bundle ==> IsId(id))
    requires TooLate(p, x) && last == ReadLast(p.file)
    ensures TooLate(ApplyFrom(bundle, fates, k, last, p).0, x)
    decreases |bundle| - k
  {
    if k < |bundle| {
      var id := bundle[k];
      hide ReadLast, IsId;
      if !Less(last, id) {
        ApplyKeepsTooLate(bundle, fates, k + 1, last, p, x);
      } else if fates[k] == Recorded {
        RecordedKeepsTooLate(p, id, x);
        hide TooLate;
        ApplyKeepsTooLate(bundle, fates, k + 1, id, RunAndRecord(p, id), x);
      }
    }
  }

  /** Once a greater id is recorded, an id never runs: in no later update, to any release. */
  lemma {:induction false} TooLateForever(releases: seq<seq<string>>, us: seq<Step>, h: Host, x: string)
    requires ValidIds(releases) && Fits(releases, us) && TooLate(h.progress, x)
    ensures TooLate(RunUpdates(releases, us, h).progress, x)
  {
    if us != [] {
      var k := |us| - 1;
      var bundle, before := releases[us[k].release], RunUpdates(releases, us[..k], h);
      TooLateForever(releases, us[..k], h, x);
      ListingMembers(bundle);
      hide TooLate, IsId;
      if us[k].update.prepared {
        ApplyKeepsTooLate(Listing(bundle), us[k].update.fates, 0, ReadLast(before.progress.file), before.progress, x);
      }
    }
  }

  // ----- a fully successful update -----

  function FullUpdate(n: nat): Update {
    Update(AllSucceed(n), true, true, true, true, true, true, true, true, "")
  }

  lemma {:induction false} EventsGrow(bundle: seq<string>, fates: seq<Fate>, k: nat, last: string, p: Progress)
    requires k <= |bundle| == |fates|
    ensures p.events <= ApplyFrom(bundle, fates, k, last, p).0.events
    decreases |bundle| - k
  {
    if k < |bundle| {
      var id := bundle[k];
      if !Less(last, id) {
        EventsGrow(bundle, fates, k + 1, last, p);
      } else if fates[k] == Recorded {
        MoreHappened(p, id);
        EventsGrow(bundle, fates, k + 1, id, RunAndRecord(p, id));
      }
    }
  }

  /** With every script succeeding, the greatest id of a bundle runs and is recorded. */
  lemma {:induction false} GreatestRuns(bundle: seq<string>, fates: seq<Fate>, k: nat, last: string, p: Progress, z: string)
    requires k <= |bundle| == |fates| && (forall f :: f in fates ==> f == Recorded)
    requires forall id :: id in bundle ==> id == z || Less(id, z)
    requires (Ran(z) in p.events && Wrote(z) in p.events) || (z in bundle[k..] && Less(last, z))
    ensures Ran(z) in ApplyFrom(bundle, fates, k, last, p).0.events
    ensures Wrote(z) in ApplyFrom(bundle, fates, k, last, p).0.events
    decreases |bundle| - k
  {
    if k < |bundle| {
      assert fates[k] in fates && bundle[k] in bundle;
      assert bundle[k..] == [bundle[k]] + bundle[k + 1..];
      var id := bundle[k];
      if Less(last, id) {
        GreatestRuns(bundle, fates, k + 1, id, RunAndRecord(p, id), z);
      } else {
        GreatestRuns(bundle, fates, k + 1, last, p, z);
      }
    }
  }

  /** An id outside the bundle does not run. */
  lemma {:induction false} OutsideStays(bundle: seq<string>, fates: seq<Fate>, k: nat, last: string, p: Progress, x: string)
    requires k <= |bundle| == |fates| && x !in bundle && Ran(x) !in p.events
    ensures Ran(x) !in ApplyFrom(bundle, fates, k, last, p).0.events
    decreases |bundle| - k
  {
    if k < |bundle| {
      assert bundle[k] in bundle;
      if !Less(last, bundle[k]) {
        OutsideStays(bundle, fates, k + 1, last, p, x);
      } else if fates[k] == Recorded {
        OutsideStays(bundle, fates, k + 1, bundle[k], RunAndRecord(p, bundle[k]), x);
      }
    }
  }

  /** A first, fully successful update. */
  function First(all: seq<string>): Progress { Apply(Listing(all), AllSucceed(|all|), Progress(None, [])).0 }

  lemma FirstFacts(all: seq<string>, x: string)
    requires SortedBundle(all) && all != []
    ensures Ran(all[|all| - 1]) in First(all).events
    ensures x !in all && Less(x, all[|all| - 1]) ==> TooLate(First(all), x)
  {
    var bundle, fates, z := Listing(all), AllSucceed(|all|), all[|all| - 1];
    var start := Progress(None, []);
    ListingMembers(all);
    forall id | id in bundle ensures id == z || Less(id, z) { var i :| 0 <= i < |all| && all[i] == id; }
    assert z in all && bundle[0..] == bundle;
    BeforeAll(z);
    GreatestRuns(bundle, fates, 0, NO_MIGRATION, start, z);
    ApplyKeepsSettled(bundle, fates, 0, NO_MIGRATION, start);
    if x !in all && Less(x, z) {
      OutsideStays(bundle, fates, 0, NO_MIGRATION, start, x);
      BehindLast(First(all), x, z);
    }
  }

  lemma BehindLast(p: Progress, x: string, z: string)
    requires Settled(p) && Wrote(z) in p.events && Less(x, z)
    ensures !Less(ReadLast(p.file), x)
  {
    var i :| 0 <= i < |p.events| && p.events[i] == Wrote(z);
    if Less(ReadLast(p.file), x) { LessTransitive(ReadLast(p.file), x, z); }
  }

  // ----- gaps -----

  lemma PrefixReaches(all: seq<string>, q: Progress, lo: nat, hi: nat, r: nat, d: nat)
    requires SortedBundle(all) && Inv(all, q, r, d) && lo <= hi < |all| && Ran(all[hi]) in q.events
    ensures Ran(all[lo]) in q.events
  {
    var i :| 0 <= i < |q.events| && q.events[i] == Ran(all[hi]);
    assert Among(q.events[i], all, r, d);
    var x :| 0 <= x < d && all[..d][x] == all[hi];
    OrderedIndex(all, hi, x);
    OrderedIndex(all, x, hi);
  }

  /** If an id of the bundle has run and a smaller one has not, what has completed is no prefix. */
  lemma GapIsInconsistent(all: seq<string>, q: Progress, lo: nat, hi: nat)
    requires SortedBundle(all) && lo < hi < |all|
    requires Ran(all[hi]) in q.events && Ran(all[lo]) !in q.events
    ensures !Consistent(all, q)
  {
    if Consistent(all, q) {
      var r: nat, d: nat :| Inv(all, q, r, d);
      PrefixReaches(all, q, lo, hi, r, d);
    }
  }

  /** A listing out of id order has a script that is skipped for good. */
  lemma SomeSkipped(bundle: seq<string>, fates: seq<Fate>) returns (id: string)
    requires GlobOrdered(bundle) && !IdOrdered(bundle) && |bundle| == |fates|
    ensures id in bundle && Ran(id) !in Apply(bundle, fates, Progress(None, [])).0.events
  {
    var i, j :| 0 <= i < j < |bundle| && !Less(bundle[i], bundle[j]);
    DistinctNames(bundle);
    LessTotal(bundle[i], bundle[j]);
    SkippedForGood(bundle, fates, 0, NO_MIGRATION, Progress(None, []), i, j);
    id := bundle[j];
  }

  lemma PairIsListedWrong(all: seq<string>)
    requires SortedBundle(all) && !NoDashPair(all)
    ensures all != [] && GlobOrdered(Listing(all)) && !IdOrdered(Listing(all))
    ensures forall x :: x in Listing(all) <==> x in all
  {
    IncreasingIsDistinct(all);
    ListingFacts(all);
    BundleOrder(Listing(all));
    var x, y :| x in all && y in all && DashExtends(x, y);
    assert x in Listing(all) && y in Listing(all);
  }

  /** A dash pair in a bundle leaves a gap in a first, fully successful update. */
  lemma PairLeavesGap(all: seq<string>)
    requires SortedBundle(all) && !NoDashPair(all)
    ensures !Consistent(all, First(all))
  {
    PairIsListedWrong(all);
    FirstFacts(all, "");
    hide Apply, Listing, IsId, NoDashPair, GlobOrdered, IdOrdered, Consistent, TooLate;
    var skipped := SomeSkipped(Listing(all), AllSucceed(|all|));
    var lo :| 0 <= lo < |all| && all[lo] == skipped;
    GapIsInconsistent(all, First(all), lo, |all| - 1);
  }

  // ----- a release that inserts -----

  /** Where one sorted list stops being a prefix of another that holds all of it, there is a new id below
      its last one. */
  lemma {:induction false} InsertedId(a: seq<string>, b: seq<string>, m: nat) returns (lo: nat, hi: nat)
    requires IdOrdered(a) && IdOrdered(b) && (forall id :: id in a ==> id in b) && !(a <= b)
    requires m <= |a| && m <= |b| && a[..m] == b[..m]
    ensures lo < hi < |b| && b[lo] !in a && b[hi] == a[|a| - 1]
    decreases |a| - m
  {
    NotWhole(a, b, m);
    var y := IndexIn(b, a[m]);
    NotBefore(a, b, m);
    if y == m {
      assert a[..m + 1] == a[..m] + [a[m]] && b[..m + 1] == b[..m] + [b[m]];
      lo, hi := InsertedId(a, b, m + 1);
    } else {
      lo := m;
      hi := IndexIn(b, a[|a| - 1]);
      NotBelow(a, b, m, y);
      OrderedIndex(b, y, hi);
      if m < |a| - 1 { assert Less(a[m], a[|a| - 1]); }
    }
  }

  lemma NotWhole(a: seq<string>, b: seq<string>, m: nat)
    requires m <= |a| && m <= |b| && a[..m] == b[..m] && !(a <= b)
    ensures m < |a|
  {
    assert a[..|a|] == a;
  }

  lemma NotBefore(a: seq<string>, b: seq<string>, m: nat)
    requires IdOrdered(a) && m < |a| && m <= |b| && a[..m] == b[..m]
    ensures forall i :: 0 <= i < m ==> b[i] != a[m]
  {
    LessIrreflexive(a[m]);
    forall i | 0 <= i < m ensures b[i] != a[m] { assert b[i] == b[..m][i] == a[..m][i] == a[i]; }
  }

  lemma IndexIn(b: seq<string>, id: string) returns (i: nat)
    requires id in b
    ensures i < |b| && b[i] == id
  {
    i :| 0 <= i < |b| && b[i] == id;
  }

  lemma NotBelow(a: seq<string>, b: seq<string>, m: nat, y: nat)
    requires IdOrdered(a) && IdOrdered(b) && m < |a| && m < y < |b| && a[..m] == b[..m] && b[y] == a[m]
    ensures b[m] !in a
  {
    forall i | 0 <= i < |a| ensures a[i] != b[m] {
      LessIrreflexive(b[m]);
      if i < m {
        assert a[i] == a[..m][i] == b[i];
      } else if i > m {
        LessTransitive(b[m], b[y], a[i]);
      }
    }
  }

  function TwoUpdates(releases: seq<seq<string>>, i: nat, j: nat): seq<Step>
    requires i < j < |releases|
  {
    [Step(i, FullUpdate(|releases[i]|)), Step(j, FullUpdate(|releases[j]|))]
  }

  lemma OneUpdateRuns(releases: seq<seq<string>>, k: nat, us: seq<Step>, binary: Option<string>)
    requires k < |releases| && us == [Step(k, FullUpdate(|releases[k]|))]
    ensures Fits(releases, us)
    ensures RunUpdates(releases, us, NewHost(binary)).progress == First(releases[k])
  {
    hide ApplyFrom;
    assert us[..0] == [];
  }

  /** A further update leaves what came too late, and what has run, as it is. */
  lemma StillSkipped(bundle: seq<string>, u: Update, h: Host, x: string, z: string)
    requires (forall id :: id in bundle ==> IsId(id)) && |u.fates| == |bundle|
    requires TooLate(h.progress, x) && Ran(z) in h.progress.events
    ensures var p := UpdateHost(Listing(bundle), u, h).0.progress; Ran(x) !in p.events && Ran(z) in p.events
  {
    ListingMembers(bundle);
    hide IsId, ReadLast;
    if u.prepared {
      ApplyKeepsTooLate(Listing(bundle), u.fates, 0, ReadLast(h.progress.file), h.progress, x);
      EventsGrow(Listing(bundle), u.fates, 0, ReadLast(h.progress.file), h.progress);
    }
    hide ApplyFrom;
  }

  /** Two fully successful updates, the second to a release that adds an id below one already recorded:
      that id has not run, and the greater one has. */
  lemma InsertedIsSkipped(releases: seq<seq<string>>, i: nat, j: nat, lo: nat, hi: nat, binary: Option<string>)
    requires Growing(releases) && ValidIds(releases) && i < j < |releases|
    requires lo < hi < |releases[j]| && releases[i] != []
    requires releases[j][lo] !in releases[i] && releases[j][hi] == releases[i][|releases[i]| - 1]
    ensures var us := TwoUpdates(releases, i, j);
            && Fits(releases, us)
            && Ran(releases[j][lo]) !in RunUpdates(releases, us, NewHost(binary)).progress.events
            && Ran(releases[j][hi]) in RunUpdates(releases, us, NewHost(binary)).progress.events
  {
    var us, a, b := TwoUpdates(releases, i, j), releases[i], releases[j];
    OneUpdateRuns(releases, i, us[..1], binary);
    OrderedIndex(b, lo, hi);
    FirstFacts(a, b[lo]);
    hide ApplyFrom, Listing, First, ReadLast, TooLate, UpdateHost, IsId, SortedBundle;
    StillSkipped(b, us[1].update, RunUpdates(releases, us[..1], NewHost(binary)), b[lo], b[hi]);
  }

  /** A release that inserts breaks the invariant. */
  lemma InsertionLeavesGap(releases: seq<seq<string>>, i: nat, j: nat, binary: Option<string>)
    requires Growing(releases) && ValidIds(releases) && i < j < |releases| && !(releases[i] <= releases[j])
    ensures Fits(releases, TwoUpdates(releases, i, j))
    ensures !KeepsPrefix(releases, TwoUpdates(releases, i, j), binary)
  {
    assert Within(releases[i], releases[j]);
    var lo, hi := InsertedId(releases[i], releases[j], 0);
    InsertedIsSkipped(releases, i, j, lo, hi, binary);
    hide RunUpdates, Consistent;
    GapIsInconsistent(releases[j], RunUpdates(releases, TwoUpdates(releases, i, j), NewHost(binary)).progress, lo, hi);
  }

  // ----- exactly when the invariant holds -----

  lemma PairBreaks(releases: seq<seq<string>>, k: nat, us: seq<Step>, binary: Option<string>)
    requires Growing(releases) && k < |releases| && !NoDashPair(releases[k])
    requires us == [Step(k, FullUpdate(|releases[k]|))]
    ensures Fits(releases, us) && !KeepsPrefix(releases, us, binary)
  {
    OneUpdateRuns(releases, k, us, binary);
    PairLeavesGap(releases[k]);
    hide RunUpdates, Consistent, First, NoDashPair;
  }

  lemma GrowingIsValid(releases: seq<seq<string>>)
    requires Growing(releases)
    ensures ValidIds(releases)
  {
    forall k, id | 0 <= k < |releases| && id in releases[k] ensures IsId(id) { assert SortedBundle(releases[k]); }
  }

  /** Over all sequences of updates to releases with growing cumulative bundles, newer or older than the
      last, each update stopping or failing anywhere, what has completed is always a prefix of the newest
      sorted bundle among theirs, run in order, with at most the last of it unrecorded, if and only if no
      bundle holds an id that is another followed by a dash and every release adds greater ids only. */
  lemma InvariantExactly(releases: seq<seq<string>>, binary: Option<string>)
    requires Growing(releases)
    ensures (forall us :: Fits(releases, us) ==> KeepsPrefix(releases, us, binary))
       <==> Appending(releases) && NoDashPairs(releases)
  {
    GrowingIsValid(releases);
    if !NoDashPairs(releases) {
      var k :| 0 <= k < |releases| && !NoDashPair(releases[k]);
      PairBreaks(releases, k, [Step(k, FullUpdate(|releases[k]|))], binary);
    } else if !Appending(releases) {
      var i, j :| 0 <= i < j < |releases| && !(releases[i] <= releases[j]);
      InsertionLeavesGap(releases, i, j, binary);
    } else {
      forall us | Fits(releases, us) ensures KeepsPrefix(releases, us, binary) {
        if us != [] { var r, d := EverySequenceOfUpdates(releases, us, binary); }
      }
    }
  }

  /** The four digits an id starts with. */
  function Number(id: string): string { if |id| < 4 then id else id[..4] }

  lemma PairSharesNumber(x: string, y: string)
    requires IsId(x) && DashExtends(x, y)
    ensures Number(x) == Number(y) && x != y
  {
    var p := x + "-";
    assert p[..4] == x[..4] && y[..|p|] == p && y[..|p|][..4] == y[..4];
  }

  /** Ids with different numbers make no dash pair. */
  lemma UniqueNumbersMakeNoPair(ids: seq<string>)
    requires forall id :: id in ids ==> IsId(id)
    requires forall x, y :: x in ids && y in ids && Number(x) == Number(y) ==> x == y
    ensures NoDashPair(ids)
  {
    forall x, y | x in ids && y in ids ensures !DashExtends(x, y) {
      if DashExtends(x, y) { PairSharesNumber(x, y); }
    }
  }

  // ----- an input that goes wrong -----

  const LATE: seq<seq<string>> := [["0002-b"], ["0001-a", "0002-b"]]

  lemma LateIds()
    ensures IsId("0001-a") && IsId("0002-b") && Less("0001-a", "0002-b") && "0001-a" != "0002-b"
  {
    LessConcat("000", "000", "1-a", "2-b");
    assert "000" + "1-a" == "0001-a" && "000" + "2-b" == "0002-b";
  }

  lemma LateGrows()
    ensures Growing(LATE) && ValidIds(LATE) && NoDashPairs(LATE)
    ensures LATE[1][0] == "0001-a" && LATE[1][1] == "0002-b" == LATE[0][|LATE[0]| - 1]
  {
    LateIds();
    hide IsId, Less;
    assert SortedBundle(LATE[0]) && SortedBundle(LATE[1]);
    assert "0001-a"[3] == '1' && "0002-b"[3] == '2';
    forall k | 0 <= k < |LATE| ensures NoDashPair(LATE[k]) {
      forall x, y | x in LATE[k] && y in LATE[k] ensures !DashExtends(x, y) { assert |x + "-"| == 7 && |y| == 6; }
    }
  }

  /** Cumulative bundles with unique prefixes and no dash pair, of which one adds `0001-a` after
      `0002-b`: after two successful updates the binary is replaced and `0001-a` has not run. */
  lemma LateMigration(binary: Option<string>)
    ensures Growing(LATE) && NoDashPairs(LATE) && Fits(LATE, TwoUpdates(LATE, 0, 1))
    ensures var h := RunUpdates(LATE, TwoUpdates(LATE, 0, 1), NewHost(binary));
            Ran("0001-a") !in h.progress.events && Ran("0002-b") in h.progress.events && h.binary == Some("")
  {
    LateGrows();
    LateIds();
    hide Growing, ValidIds, NoDashPairs;
    InsertedIsSkipped(LATE, 0, 1, 0, 1, binary);
    SecondSucceeds(LATE, 0, 1, binary);
  }

  lemma FullUpdateSucceeds(bundle: seq<string>, h: Host)
    ensures UpdateHost(Listing(bundle), FullUpdate(|bundle|), h).0.binary == Some("")
  {
    AllRecordedIsDone(Listing(bundle), AllSucceed(|bundle|), 0, ReadLast(h.progress.file), h.progress);
    hide ApplyFrom, Listing, ReadLast;
  }

  lemma SecondSucceeds(releases: seq<seq<string>>, i: nat, j: nat, binary: Option<string>)
    requires i < j < |releases| && Fits(releases, TwoUpdates(releases, i, j))
    ensures RunUpdates(releases, TwoUpdates(releases, i, j), NewHost(binary)).binary == Some("")
  {
    var us := TwoUpdates(releases, i, j);
    FullUpdateSucceeds(releases[j], RunUpdates(releases, us[..1], NewHost(binary)));
    hide UpdateHost, Listing, FullUpdate;
  }
}
