/** What every append keeps: whole lines, bounded files, one day per file, nothing lost but by age. */
module SpoolFacts {
  import opened Text
  import opened LogRecords
  import opened LogSpool
  import RecordIds

  // ----- file names -----

  lemma DailyNameInjective(a: nat, b: nat)
    ensures DailyName(a) == DailyName(b) <==> a / DAY == b / DAY
  {
    if DailyName(a) == DailyName(b) {
      var x, y := Decimal(a / DAY), Decimal(b / DAY);
      assert DailyName(a)[7..|DailyName(a)| - 6] == x && DailyName(b)[7..|DailyName(b)| - 6] == y;
      DecimalInjective(a / DAY, b / DAY);
    }
  }

  lemma OverflowIsNotDaily(id: string, ms: nat)
    ensures OverflowName(id) != DailyName(ms)
  {
    assert OverflowName(id)[7] == 'o';
    assert DailyName(ms)[7] == Decimal(ms / DAY)[0];
    assert IsDigit(Decimal(ms / DAY)[0]);
  }

  lemma OverflowNameInjective(k: U64, m: U64, pid: U32)
    ensures OverflowName(RecordIds.Format(k, pid)) == OverflowName(RecordIds.Format(m, pid)) <==> k == m
  {
    var x, y := RecordIds.Format(k, pid), RecordIds.Format(m, pid);
    RecordIds.FormatOrder(k, pid, m, pid);
    RecordIds.FormatOrder(m, pid, k, pid);
    assert OverflowName(x)[16..16 + 31] == x && OverflowName(y)[16..16 + 31] == y;
  }

  // ----- the invariant -----

  function RecordsOf(history: seq<Entry>): (r: seq<Record>)
    ensures |r| == |history|
  {
    if history == [] then [] else [history[0].record] + RecordsOf(history[1..])
  }

  lemma RecordsOfSnoc(history: seq<Entry>, e: Entry)
    ensures RecordsOf(history + [e]) == RecordsOf(history) + [e.record]
  {
    if history != [] {
      assert (history + [e])[1..] == history[1..] + [e];
      RecordsOfSnoc(history[1..], e);
    }
  }

  /** The fixed parameters of a run: serialiser, process, size limit, and the longest time between
      picking a daily file and writing to it. */
  datatype Setting = Setting(codec: Codec, pid: U32, maxBytes: nat, stall: nat) {
    ghost predicate Valid() { codec.Valid() && maxBytes < U64_MAX }
  }

  ghost predicate WholeLines(codec: Codec, f: LogFile) {
    f.history != [] && f.content == codec.Render(RecordsOf(f.history))
  }

  predicate WithinLimit(f: LogFile, maxBytes: nat) {
    |f.content| <= maxBytes || |f.history| == 1
  }

  function Day(f: LogFile): nat
    requires f.history != []
  {
    f.history[0].bucketAt / DAY
  }

  predicate OneDay(f: LogFile) {
    && f.history != []
    && (forall e :: e in f.history ==> e.bucketAt / DAY == Day(f))
    && f.modified == f.history[|f.history| - 1].writtenAt
  }

  /** A file is its day's daily file, or was rotated under an id already issued. */
  ghost predicate Named(f: LogFile, pid: U32, counter: U64)
    requires f.history != []
  {
    || f.name == DailyName(Day(f) * DAY)
    || exists k: U64 :: k < counter && f.name == OverflowName(RecordIds.Format(k, pid))
  }

  ghost predicate FileOk(x: Setting, counter: U64, f: LogFile) {
    && WholeLines(x.codec, f)
    && WithinLimit(f, x.maxBytes)
    && OneDay(f)
    && Named(f, x.pid, counter)
  }

  /** What every spool keeps, whatever its clock does. */
  ghost predicate Inv(x: Setting, s: Spool) {
    && UniqueNames(s.files)
    && forall f :: f in s.files ==> FileOk(x, s.counter, f)
  }

  lemma FileOkLater(x: Setting, c: U64, c': U64, f: LogFile)
    requires FileOk(x, c, f) && c <= c'
    ensures FileOk(x, c', f)
  {
  }

  // ----- the operations, one by one -----

  lemma {:induction false} KeptUnique(dir: Directory, now: nat)
    requires UniqueNames(dir)
    ensures UniqueNames(Kept(dir, now))
  {
    if dir != [] {
      KeptUnique(dir[1..], now);
      var rest := Kept(dir[1..], now);
      assert NameFree(rest, dir[0].name);
      assert Expired(dir[0], now) ==> Kept(dir, now) == rest;
      assert !Expired(dir[0], now) ==> Kept(dir, now)[0] == dir[0] && Kept(dir, now)[1..] == rest;
    }
  }

  lemma {:induction false} RenameFacts(dir: Directory, from: string, to: string)
    requires UniqueNames(dir) && NameFree(dir, to)
    ensures UniqueNames(Rename(dir, from, to))
    ensures NameFree(Rename(dir, from, to), from) || from == to
    ensures forall f :: f in Rename(dir, from, to) <==>
              (f in dir && f.name != from) || exists g :: g in dir && g.name == from && f == g.(name := to)
    ensures |Rename(dir, from, to)| == |dir|
  {
    if dir != [] {
      var r := Rename(dir[1..], from, to);
      RenameFacts(dir[1..], from, to);
      var head := if dir[0].name == from then dir[0].(name := to) else dir[0];
      assert Rename(dir, from, to) == [head] + r;
      assert dir == [dir[0]] + dir[1..];
      if dir[0].name == from {
        RenameAbsent(dir[1..], from, to);
      }
    }
  }

  lemma {:induction false} RenameAbsent(dir: Directory, from: string, to: string)
    requires NameFree(dir, from) && NameFree(dir, to)
    ensures Rename(dir, from, to) == dir
  {
    if dir != [] {
      assert dir[0] in dir;
      RenameAbsent(dir[1..], from, to);
    }
  }

  /** The file a write leaves under `name`. */
  function Written(dir: Directory, name: string, payload: seq<byte>, e: Entry): LogFile {
    if dir == [] then LogFile(name, payload, e.writtenAt, [e])
    else if dir[0].name == name then Extended(dir[0], payload, e)
    else Written(dir[1..], name, payload, e)
  }

  function Extended(f: LogFile, payload: seq<byte>, e: Entry): LogFile {
    f.(content := f.content + payload, modified := e.writtenAt, history := f.history + [e])
  }

  lemma {:induction false} WriteFacts(dir: Directory, name: string, payload: seq<byte>, e: Entry)
    requires UniqueNames(dir)
    ensures UniqueNames(Write(dir, name, payload, e))
    ensures forall f :: f in Write(dir, name, payload, e) <==>
              (f in dir && f.name != name) || f == Written(dir, name, payload, e)
    ensures Written(dir, name, payload, e).name == name
  {
    if dir != [] {
      assert dir == [dir[0]] + dir[1..];
      if dir[0].name != name {
        WriteFacts(dir[1..], name, payload, e);
        var rest := Write(dir[1..], name, payload, e);
        assert Write(dir, name, payload, e)[1..] == rest;
        assert NameFree(rest, dir[0].name);
      } else {
        var w := Write(dir, name, payload, e);
        assert w[1..] == dir[1..];
      }
    }
  }

  /** `Written` is either the first line of a new file or one more line of an existing one. */
  lemma {:induction false} WrittenCases(dir: Directory, name: string, payload: seq<byte>, e: Entry)
    returns (found: Option<LogFile>)
    requires UniqueNames(dir)
    ensures match found
            case None => NameFree(dir, name) && Written(dir, name, payload, e) == LogFile(name, payload, e.writtenAt, [e])
            case Some(f) => f in dir && f.name == name && SizeOf(dir, name) == |f.content|
                            && Written(dir, name, payload, e) == Extended(f, payload, e)
  {
    if dir == [] {
      found := None;
    } else if dir[0].name == name {
      found := Some(dir[0]);
    } else {
      found := WrittenCases(dir[1..], name, payload, e);
    }
  }

  // ----- one append keeps the invariant -----

  lemma WrittenOk(x: Setting, c: U64, dir: Directory, record: Record, t: Readings)
    requires x.Valid() && Inv(x, Spool(dir, c))
    requires !MustRotate(dir, DailyName(t.bucket), |x.codec.Payload(record)|, x.maxBytes)
    ensures FileOk(x, c,
                   Written(dir, DailyName(t.bucket), x.codec.Payload(record), Entry(record, t.bucket, t.write)))
  {
    var name, payload, e := DailyName(t.bucket), x.codec.Payload(record), Entry(record, t.bucket, t.write);
    var w := Written(dir, name, payload, e);
    var found := WrittenCases(dir, name, payload, e);
    match found
    case None =>
      assert RecordsOf([e]) == [record];
      assert x.codec.Render([record]) == payload;
      DailyNameInjective(t.bucket, t.bucket / DAY * DAY);
    case Some(f) =>
      assert FileOk(x, c, f);
      RecordsOfSnoc(f.history, e);
      x.codec.RenderSnoc(RecordsOf(f.history), record);
      PayloadNonEmpty(x.codec, f.history);
      NamedDaily(f, x.pid, c, t.bucket);
  }

  lemma PayloadNonEmpty(codec: Codec, history: seq<Entry>)
    requires history != []
    ensures codec.Render(RecordsOf(history)) != []
  {
  }

  /** A file under a daily name holds that day's records. */
  lemma NamedDaily(f: LogFile, pid: U32, c: U64, ms: nat)
    requires f.history != [] && Named(f, pid, c) && f.name == DailyName(ms)
    ensures Day(f) == ms / DAY
  {
    if f.name == DailyName(Day(f) * DAY) {
      DailyNameInjective(ms, Day(f) * DAY);
    } else {
      var k: U64 :| k < c && f.name == OverflowName(RecordIds.Format(k, pid));
      OverflowIsNotDaily(RecordIds.Format(k, pid), ms);
    }
  }

  /** Rotation picks a name no file has, because every rotated file used an earlier id. */
  lemma RotatedNameIsFree(x: Setting, s: Spool)
    requires Inv(x, s)
    ensures NameFree(s.files, OverflowName(RecordIds.Format(s.counter, x.pid)))
  {
    var name := OverflowName(RecordIds.Format(s.counter, x.pid));
    forall f | f in s.files ensures f.name != name {
      if f.name == name {
        assert FileOk(x, s.counter, f);
        OverflowIsNotDaily(RecordIds.Format(s.counter, x.pid), Day(f) * DAY);
        var k: U64 :| k < s.counter && f.name == OverflowName(RecordIds.Format(k, x.pid));
        OverflowNameInjective(k, s.counter, x.pid);
      }
    }
  }

  lemma KeptInv(x: Setting, s: Spool, at: nat)
    requires Inv(x, s)
    ensures Inv(x, Spool(Kept(s.files, at), s.counter))
  {
    KeptUnique(s.files, at);
  }

  lemma RotateInv(x: Setting, s: Spool, name: string, nanos: U64)
    requires Inv(x, s) && s.counter < U64_MAX
    ensures Inv(x, Spool(Rotate(s.files, name, s.counter, x.pid), RecordIds.Advance(s.counter, nanos)))
    ensures (exists ms :: name == DailyName(ms)) ==> NameFree(Rotate(s.files, name, s.counter, x.pid), name)
  {
    var id := RecordIds.Format(s.counter, x.pid);
    RotatedNameIsFree(x, s);
    RenameFacts(s.files, name, OverflowName(id));
    var c' := RecordIds.Advance(s.counter, nanos);
    forall f | f in Rotate(s.files, name, s.counter, x.pid) ensures FileOk(x, c', f) {
      if f in s.files {
        FileOkLater(x, s.counter, c', f);
      } else {
        var g :| g in s.files && g.name == name && f == g.(name := OverflowName(id));
        assert FileOk(x, s.counter, g);
      }
    }
    if exists ms :: name == DailyName(ms) {
      var ms :| name == DailyName(ms);
      OverflowIsNotDaily(id, ms);
    }
  }

  lemma WriteInv(x: Setting, s: Spool, record: Record, t: Readings)
    requires x.Valid() && Inv(x, s)
    requires !MustRotate(s.files, DailyName(t.bucket), |x.codec.Payload(record)|, x.maxBytes)
    ensures var e := Entry(record, t.bucket, t.write);
            Inv(x, Spool(Write(s.files, DailyName(t.bucket), x.codec.Payload(record), e), s.counter))
  {
    var name, payload, e := DailyName(t.bucket), x.codec.Payload(record), Entry(record, t.bucket, t.write);
    WriteFacts(s.files, name, payload, e);
    WrittenOk(x, s.counter, s.files, record, t);
    forall f | f in Write(s.files, name, payload, e) ensures FileOk(x, s.counter, f) {
      assert f in s.files ==> FileOk(x, s.counter, f);
    }
  }

  lemma {:induction false} SizeOfFree(dir: Directory, name: string)
    requires NameFree(dir, name)
    ensures SizeOf(dir, name) == 0
  {
    if dir != [] {
      assert dir[0] in dir;
      SizeOfFree(dir[1..], name);
    }
  }

  /** The append, as one write into a directory `base` obtained by pruning and, if the daily file
      is full, rotating. */
  function Base(x: Setting, s: Spool, record: Record, t: Readings): Spool {
    var pruned, name := Kept(s.files, t.prune), DailyName(t.bucket);
    if MustRotate(pruned, name, |x.codec.Payload(record)|, x.maxBytes) then
      Spool(Kept(Rotate(pruned, name, s.counter, x.pid), t.pruneAgain), RecordIds.Advance(s.counter, t.rotateNanos))
    else Spool(pruned, s.counter)
  }

  lemma BaseInv(x: Setting, s: Spool, record: Record, t: Readings)
    requires x.Valid() && Inv(x, s) && s.counter < U64_MAX
    ensures Inv(x, Base(x, s, record, t))
    ensures !MustRotate(Base(x, s, record, t).files, DailyName(t.bucket), |x.codec.Payload(record)|, x.maxBytes)
    ensures Append(x.codec, x.pid, x.maxBytes, s, record, t)
         == Spool(Write(Base(x, s, record, t).files, DailyName(t.bucket), x.codec.Payload(record),
                        Entry(record, t.bucket, t.write)),
                  Base(x, s, record, t).counter)
  {
    var pruned, name := Kept(s.files, t.prune), DailyName(t.bucket);
    KeptInv(x, s, t.prune);
    if MustRotate(pruned, name, |x.codec.Payload(record)|, x.maxBytes) {
      RotateInv(x, Spool(pruned, s.counter), name, t.rotateNanos);
      var rotated := Rotate(pruned, name, s.counter, x.pid);
      KeptInv(x, Spool(rotated, RecordIds.Advance(s.counter, t.rotateNanos)), t.pruneAgain);
      SizeOfFree(Kept(rotated, t.pruneAgain), name);
    }
  }

  /** Every append keeps the invariant, whatever the clock readings: whole record lines, the size limit
      or a single record, one day per file, and a name that tells the two kinds of file apart. */
  lemma AppendKeepsInvariant(x: Setting, s: Spool, record: Record, t: Readings)
    requires x.Valid() && Inv(x, s) && s.counter < U64_MAX
    ensures Inv(x, Append(x.codec, x.pid, x.maxBytes, s, record, t))
  {
    BaseInv(x, s, record, t);
    WriteInv(x, Base(x, s, record, t), record, t);
  }

  lemma {:induction false} SizeOfNamed(dir: Directory, f: LogFile)
    requires UniqueNames(dir) && f in dir
    ensures SizeOf(dir, f.name) == |f.content|
  {
    if f != dir[0] { SizeOfNamed(dir[1..], f); }
  }

  /** Today's file grows while the record fits and the limit allows; once it does not, the file is set
      aside under a fresh name, as it was, and the record starts a new one. */
  lemma GrowsOrRotates(x: Setting, s: Spool, record: Record, t: Readings, f: LogFile)
    requires x.Valid() && Inv(x, s) && s.counter < U64_MAX
    requires f in Kept(s.files, t.prune) && f.name == DailyName(t.bucket)
    ensures var payload, e := x.codec.Payload(record), Entry(record, t.bucket, t.write);
            var after := Append(x.codec, x.pid, x.maxBytes, s, record, t);
            if |f.content| + |payload| <= x.maxBytes then
              Extended(f, payload, e) in after.files && after.counter == s.counter
            else
              && LogFile(f.name, payload, t.write, [e]) in after.files
              && after.counter == RecordIds.Advance(s.counter, t.rotateNanos)
              && (t.pruneAgain <= f.modified + WEEK ==>
                    f.(name := OverflowName(RecordIds.Format(s.counter, x.pid))) in after.files)
  {
    var payload, e := x.codec.Payload(record), Entry(record, t.bucket, t.write);
    var pruned, base := Kept(s.files, t.prune), Base(x, s, record, t);
    BaseInv(x, s, record, t);
    WriteFacts(base.files, f.name, payload, e);
    var found := WrittenCases(base.files, f.name, payload, e);
    KeptInv(x, s, t.prune);
    SizeOfNamed(pruned, f);
    if |f.content| + |payload| <= x.maxBytes {
      SameNameSameFile(base.files, f, found.value);
    } else {
      assert FileOk(x, s.counter, f);
      PayloadNonEmpty(x.codec, f.history);
      SetAside(x, Spool(pruned, s.counter), f, t);
    }
  }

  lemma SetAside(x: Setting, s: Spool, f: LogFile, t: Readings)
    requires Inv(x, s) && s.counter < U64_MAX && f in s.files && f.name == DailyName(t.bucket)
    ensures var id := RecordIds.Format(s.counter, x.pid);
            var left := Kept(Rotate(s.files, f.name, s.counter, x.pid), t.pruneAgain);
            && NameFree(left, f.name)
            && OverflowName(id) != f.name
            && (t.pruneAgain <= f.modified + WEEK ==> f.(name := OverflowName(id)) in left)
  {
    var id := RecordIds.Format(s.counter, x.pid);
    RotatedNameIsFree(x, s);
    RenameFacts(s.files, f.name, OverflowName(id));
    OverflowIsNotDaily(id, t.bucket);
    assert f.(name := OverflowName(id)) in Rotate(s.files, f.name, s.counter, x.pid);
  }

  lemma {:induction false} SameNameSameFile(dir: Directory, f: LogFile, g: LogFile)
    requires UniqueNames(dir) && f in dir && g in dir && f.name == g.name
    ensures f == g
  {
    if f != dir[0] && g != dir[0] { SameNameSameFile(dir[1..], f, g); }
  }

  // ----- conservation of records -----

  /** Every record a query can decode from a directory. */
  function Stored(codec: Codec, dir: Directory): multiset<Record> {
    if dir == [] then multiset{} else multiset(codec.Parse(dir[0].content)) + Stored(codec, dir[1..])
  }

  lemma {:induction false} StoredAppend(codec: Codec, a: Directory, b: Directory)
    ensures Stored(codec, a + b) == Stored(codec, a) + Stored(codec, b)
  {
    if a == [] {
      assert a + b == b;
    } else {
      assert (a + b)[1..] == a[1..] + b;
      StoredAppend(codec, a[1..], b);
    }
  }

  lemma {:induction false} PruneSplits(codec: Codec, dir: Directory, now: nat)
    ensures Stored(codec, Kept(dir, now)) + Stored(codec, Dropped(dir, now)) == Stored(codec, dir)
  {
    if dir != [] {
      PruneSplits(codec, dir[1..], now);
      var k, d := Kept(dir[1..], now), Dropped(dir[1..], now);
      if Expired(dir[0], now) {
        assert Dropped(dir, now)[1..] == d && Kept(dir, now) == k;
      } else {
        assert Kept(dir, now)[1..] == k && Dropped(dir, now) == d;
      }
    }
  }

  lemma {:induction false} RenameStored(codec: Codec, dir: Directory, from: string, to: string)
    requires NameFree(dir, to)
    ensures Stored(codec, Rename(dir, from, to)) == Stored(codec, dir)
  {
    if dir != [] {
      assert dir[0] in dir;
      RenameStored(codec, dir[1..], from, to);
      assert Rename(dir, from, to)[1..] == Rename(dir[1..], from, to);
    }
  }

  lemma LineStored(codec: Codec, history: seq<Entry>, r: Record)
    requires codec.Valid()
    ensures codec.Parse(codec.Render(RecordsOf(history)) + codec.Payload(r)) == RecordsOf(history) + [r]
    ensures codec.Parse(codec.Render(RecordsOf(history))) == RecordsOf(history)
    ensures codec.Parse(codec.Payload(r)) == [r]
  {
    codec.RenderSnoc(RecordsOf(history), r);
    codec.ParseOfRender(RecordsOf(history) + [r]);
    codec.ParseOfRender(RecordsOf(history));
    codec.RenderSnoc([], r);
    codec.ParseOfRender([] + [r]);
    assert codec.Render([]) + codec.Payload(r) == codec.Payload(r);
  }

  /** A file's text grows by one record. */
  lemma FileGrows(codec: Codec, dir: Directory, grown: Directory, r: Record)
    requires dir != [] && grown != [] && grown[1..] == dir[1..]
    requires codec.Parse(grown[0].content) == codec.Parse(dir[0].content) + [r]
    ensures Stored(codec, grown) == Stored(codec, dir) + multiset{r}
  {
    var before := codec.Parse(dir[0].content);
    assert multiset(before + [r]) == multiset(before) + multiset{r};
  }

  lemma {:induction false} WriteStored(codec: Codec, dir: Directory, name: string, r: Record, e: Entry)
    requires codec.Valid() && forall f :: f in dir ==> WholeLines(codec, f)
    ensures Stored(codec, Write(dir, name, codec.Payload(r), e)) == Stored(codec, dir) + multiset{r}
  {
    var w := Write(dir, name, codec.Payload(r), e);
    if dir == [] {
      LineStored(codec, [], r);
      assert w[1..] == [];
    } else if dir[0].name == name {
      assert WholeLines(codec, dir[0]);
      LineStored(codec, dir[0].history, r);
      FileGrows(codec, dir, w, r);
    } else {
      WriteStored(codec, dir[1..], name, r, e);
      assert w[1..] == Write(dir[1..], name, codec.Payload(r), e);
    }
  }

  lemma BaseStored(x: Setting, s: Spool, record: Record, t: Readings)
    requires x.Valid() && Inv(x, s)
    ensures Stored(x.codec, Base(x, s, record, t).files)
              + Stored(x.codec, Pruned(x.codec, x.pid, x.maxBytes, s, record, t))
         == Stored(x.codec, s.files)
  {
    var pruned, name := Kept(s.files, t.prune), DailyName(t.bucket);
    PruneSplits(x.codec, s.files, t.prune);
    if MustRotate(pruned, name, |x.codec.Payload(record)|, x.maxBytes) {
      KeptInv(x, s, t.prune);
      RotatedNameIsFree(x, Spool(pruned, s.counter));
      RenameStored(x.codec, pruned, name, OverflowName(RecordIds.Format(s.counter, x.pid)));
      var rotated := Rotate(pruned, name, s.counter, x.pid);
      PruneSplits(x.codec, rotated, t.pruneAgain);
      StoredAppend(x.codec, Dropped(s.files, t.prune), Dropped(rotated, t.pruneAgain));
    } else {
      assert Dropped(s.files, t.prune) + [] == Dropped(s.files, t.prune);
    }
  }

  /** An append adds exactly its record and loses exactly what its prunes delete: rotation moves
      records and never overwrites any. */
  lemma AppendConservesRecords(x: Setting, s: Spool, record: Record, t: Readings)
    requires x.Valid() && Inv(x, s) && s.counter < U64_MAX
    ensures Stored(x.codec, Append(x.codec, x.pid, x.maxBytes, s, record, t).files)
              + Stored(x.codec, Pruned(x.codec, x.pid, x.maxBytes, s, record, t))
         == Stored(x.codec, s.files) + multiset{record}
  {
    var base := Base(x, s, record, t);
    BaseInv(x, s, record, t);
    BaseStored(x, s, record, t);
    WriteStored(x.codec, base.files, DailyName(t.bucket), record, Entry(record, t.bucket, t.write));
  }

  // ----- time -----

  /** The clock readings of one append are ordered and its write is not stalled beyond the bound. */
  predicate Timely(x: Setting, since: nat, t: Readings) {
    InOrder(since, t) && t.write <= t.prune + x.stall
  }

  /** The writes of a file, on a clock that does not go back. */
  predicate InTime(f: LogFile, stall: nat, now: nat) {
    && (forall e :: e in f.history ==> e.bucketAt <= e.writtenAt <= f.modified && e.writtenAt <= e.bucketAt + stall)
    && f.modified <= now
  }

  /** What a spool keeps besides while its clock does not go back. */
  predicate TimedInv(x: Setting, s: Spool, now: nat) {
    forall f :: f in s.files ==> InTime(f, x.stall, now)
  }

  lemma RotateInTime(x: Setting, s: Spool, now: nat, name: string)
    requires Inv(x, s) && TimedInv(x, s, now)
    ensures forall f :: f in Rotate(s.files, name, s.counter, x.pid) ==> InTime(f, x.stall, now)
  {
    RotatedNameIsFree(x, s);
    RenameFacts(s.files, name, OverflowName(RecordIds.Format(s.counter, x.pid)));
    var to := OverflowName(RecordIds.Format(s.counter, x.pid));
    hide OverflowName, InTime, Inv, NameFree, UniqueNames;
    forall f | f in Rotate(s.files, name, s.counter, x.pid) ensures InTime(f, x.stall, now) {
      if f !in s.files {
        var g :| g in s.files && g.name == name && f == g.(name := to);
        RenamedInTime(g, to, x.stall, now);
      }
    }
  }

  lemma RenamedInTime(f: LogFile, to: string, stall: nat, now: nat)
    ensures InTime(f, stall, now) ==> InTime(f.(name := to), stall, now)
  {
  }

  lemma BaseInTime(x: Setting, s: Spool, now: nat, record: Record, t: Readings)
    requires Inv(x, s) && TimedInv(x, s, now)
    ensures TimedInv(x, Base(x, s, record, t), now)
  {
    KeptInv(x, s, t.prune);
    var pruned := Spool(Kept(s.files, t.prune), s.counter);
    assert TimedInv(x, pruned, now);
    RotateInTime(x, pruned, now, DailyName(t.bucket));
    hide InTime;
  }

  /** One more write on time keeps a file's writes on time. */
  lemma ExtendedInTime(f: LogFile, stall: nat, now: nat, payload: seq<byte>, e: Entry)
    requires InTime(f, stall, now) && now <= e.writtenAt
    requires e.bucketAt <= e.writtenAt <= e.bucketAt + stall
    ensures InTime(Extended(f, payload, e), stall, e.writtenAt)
  {
  }

  lemma LaterInTime(f: LogFile, stall: nat, now: nat, later: nat)
    requires now <= later
    ensures InTime(f, stall, now) ==> InTime(f, stall, later)
  {
  }

  lemma WrittenInTime(x: Setting, base: Spool, now: nat, record: Record, t: Readings)
    requires Inv(x, base) && TimedInv(x, base, now) && Timely(x, now, t)
    ensures InTime(Written(base.files, DailyName(t.bucket), x.codec.Payload(record), Entry(record, t.bucket, t.write)), x.stall, t.write)
  {
    var name, payload, e := DailyName(t.bucket), x.codec.Payload(record), Entry(record, t.bucket, t.write);
    var found := WrittenCases(base.files, name, payload, e);
    if found.Some? {
      assert InTime(found.value, x.stall, now);
      ExtendedInTime(found.value, x.stall, now, payload, e);
    }
  }

  /** An append whose readings are ordered and timely keeps the times in order. */
  lemma AppendKeepsTime(x: Setting, s: Spool, now: nat, record: Record, t: Readings)
    requires x.Valid() && Inv(x, s) && s.counter < U64_MAX && TimedInv(x, s, now) && Timely(x, now, t)
    ensures TimedInv(x, Append(x.codec, x.pid, x.maxBytes, s, record, t), t.write)
  {
    var name, payload, e := DailyName(t.bucket), x.codec.Payload(record), Entry(record, t.bucket, t.write);
    var base := Base(x, s, record, t);
    BaseInv(x, s, record, t);
    BaseInTime(x, s, now, record, t);
    WriteFacts(base.files, name, payload, e);
    WrittenInTime(x, base, now, record, t);
    hide InTime, Append, Base, Write, Written;
    forall f | f in Append(x.codec, x.pid, x.maxBytes, s, record, t).files ensures InTime(f, x.stall, t.write) {
      if f in base.files { LaterInTime(f, x.stall, now, t.write); }
    }
  }

  // ----- retention -----

  /** Where a record can be found: some file's history holds the entry. */
  ghost predicate Holds(dir: Directory, e: Entry) { exists f :: f in dir && e in f.history }

  lemma KeptHolds(x: Setting, files: Directory, now: nat, at: nat, e: Entry)
    requires (forall f :: f in files ==> InTime(f, x.stall, now)) && Holds(files, e) && at <= e.writtenAt + WEEK
    ensures Holds(Kept(files, at), e)
  {
    var f :| f in files && e in f.history;
    assert InTime(f, x.stall, now);
    assert !Expired(f, at);
  }

  lemma RotateHolds(x: Setting, s: Spool, name: string, e: Entry)
    requires Inv(x, s) && Holds(s.files, e)
    ensures Holds(Rotate(s.files, name, s.counter, x.pid), e)
  {
    hide OverflowName;
    RotatedNameIsFree(x, s);
    var to := OverflowName(RecordIds.Format(s.counter, x.pid));
    RenameFacts(s.files, name, to);
    var f :| f in s.files && e in f.history;
    var moved := if f.name == name then f.(name := to) else f;
    assert moved in Rotate(s.files, name, s.counter, x.pid);
  }

  lemma BaseHolds(x: Setting, s: Spool, now: nat, record: Record, t: Readings, e: Entry)
    requires Inv(x, s) && TimedInv(x, s, now) && s.counter < U64_MAX && t.prune <= t.pruneAgain
    requires Holds(s.files, e) && t.pruneAgain <= e.writtenAt + WEEK
    ensures Holds(Base(x, s, record, t).files, e)
  {
    var pruned, name := Spool(Kept(s.files, t.prune), s.counter), DailyName(t.bucket);
    KeptInv(x, s, t.prune);
    KeptHolds(x, s.files, now, t.prune, e);
    if MustRotate(pruned.files, name, |x.codec.Payload(record)|, x.maxBytes) {
      RotateInTime(x, pruned, now, name);
      RotateHolds(x, pruned, name, e);
      KeptHolds(x, Rotate(pruned.files, name, s.counter, x.pid), now, t.pruneAgain, e);
    }
  }

  lemma WriteHolds(dir: Directory, name: string, payload: seq<byte>, entry: Entry, e: Entry)
    requires UniqueNames(dir) && Holds(dir, e)
    ensures Holds(Write(dir, name, payload, entry), e)
  {
    var f :| f in dir && e in f.history;
    WriteFacts(dir, name, payload, entry);
    if f.name == name {
      var found := WrittenCases(dir, name, payload, entry);
      assert found.Some?;
      SameNameSameFile(dir, f, found.value);
      assert Written(dir, name, payload, entry) in Write(dir, name, payload, entry);
    } else {
      assert f in Write(dir, name, payload, entry);
    }
  }

  /** A record written within the seven days before the prunes of an append survives it. */
  lemma RecentRecordsSurvive(x: Setting, s: Spool, now: nat, record: Record, t: Readings, e: Entry)
    requires x.Valid() && Inv(x, s) && s.counter < U64_MAX && TimedInv(x, s, now) && t.prune <= t.pruneAgain
    requires Holds(s.files, e) && t.pruneAgain <= e.writtenAt + WEEK
    ensures Holds(Append(x.codec, x.pid, x.maxBytes, s, record, t).files, e)
  {
    BaseInv(x, s, record, t);
    BaseHolds(x, s, now, record, t, e);
    WriteHolds(Base(x, s, record, t).files, DailyName(t.bucket), x.codec.Payload(record),
               Entry(record, t.bucket, t.write), e);
  }

  /** Just after an append every surviving record was written less than eight days ago, give or take
      twice the longest stall of an append; with an ideal clock (`stall == 0`) that is eight days. */
  lemma OldRecordsAreGone(x: Setting, s: Spool, now: nat, record: Record, t: Readings, e: Entry)
    requires x.Valid() && Inv(x, s) && s.counter < U64_MAX && TimedInv(x, s, now) && Timely(x, now, t)
    requires Holds(Append(x.codec, x.pid, x.maxBytes, s, record, t).files, e)
    ensures t.write < e.writtenAt + WEEK + DAY + 2 * x.stall
  {
    var after := Append(x.codec, x.pid, x.maxBytes, s, record, t);
    var f :| f in after.files && e in f.history;
    AppendKeepsInvariant(x, s, record, t);
    AppendKeepsTime(x, s, now, record, t);
    AppendIsFresh(x, s, record, t, f);
    assert FileOk(x, after.counter, f) && InTime(f, x.stall, t.write);
    SpreadOfFile(f, x.stall, t.write, e);
  }

  /** The lines of one file were written at most a day and a stall apart. */
  lemma SpreadOfFile(f: LogFile, stall: nat, now: nat, e: Entry)
    requires OneDay(f) && InTime(f, stall, now) && e in f.history
    ensures f.modified < e.writtenAt + DAY + stall
  {
    var last := f.history[|f.history| - 1];
    assert last in f.history;
    SameDay(e.bucketAt, last.bucketAt);
  }

  /** The last prune of an append: after a rotation there is a second one. */
  function LastPrune(x: Setting, s: Spool, record: Record, t: Readings): nat {
    if MustRotate(Kept(s.files, t.prune), DailyName(t.bucket), |x.codec.Payload(record)|, x.maxBytes)
    then t.pruneAgain else t.prune
  }

  /** Every file an append leaves was last written within a week of the append's last prune. */
  lemma AppendIsFresh(x: Setting, s: Spool, record: Record, t: Readings, f: LogFile)
    requires x.Valid() && Inv(x, s) && s.counter < U64_MAX && LastPrune(x, s, record, t) <= t.write + WEEK
    requires f in Append(x.codec, x.pid, x.maxBytes, s, record, t).files
    ensures LastPrune(x, s, record, t) <= f.modified + WEEK
  {
    var name, entry := DailyName(t.bucket), Entry(record, t.bucket, t.write);
    var payload := x.codec.Payload(record);
    var base := Base(x, s, record, t);
    BaseInv(x, s, record, t);
    WriteFacts(base.files, name, payload, entry);
    if f == Written(base.files, name, payload, entry) {
      var found := WrittenCases(base.files, name, payload, entry);
    } else {
      BaseIsFresh(x, s, record, t, f);
    }
  }

  lemma SameDay(a: nat, b: nat)
    requires a / DAY == b / DAY
    ensures b < a + DAY
  {
  }

  lemma BaseIsFresh(x: Setting, s: Spool, record: Record, t: Readings, f: LogFile)
    requires x.Valid() && Inv(x, s) && s.counter < U64_MAX
    requires f in Base(x, s, record, t).files
    ensures LastPrune(x, s, record, t) <= f.modified + WEEK
  {
    var pruned, name := Kept(s.files, t.prune), DailyName(t.bucket);
    BaseInv(x, s, record, t);
    assert FileOk(x, Base(x, s, record, t).counter, f);
    StartsWithEvents(f, x.pid, Base(x, s, record, t).counter);
  }

  lemma StartsWithEvents(f: LogFile, pid: U32, c: U64)
    requires f.history != [] && Named(f, pid, c)
    ensures "events-" <= f.name
  {
    if f.name == DailyName(Day(f) * DAY) {
      assert f.name[..7] == "events-";
    } else {
      var k: U64 :| k < c && f.name == OverflowName(RecordIds.Format(k, pid));
      assert f.name[..7] == "events-";
    }
  }
}
