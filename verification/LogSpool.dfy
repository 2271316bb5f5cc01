/** The log directory: daily files, rotation on size, pruning on age. Time is in milliseconds. */
module LogSpool {
  import opened Text
  import opened LogRecords
  import RecordIds

  const DAY: nat := 86_400_000
  const WEEK: nat := 7 * 24 * 60 * 60 * 1000

  /** One file. `history` is bookkeeping that no decision reads: which record each line came from,
      the clock reading that picked the file's day, and the time of the write. */
  datatype LogFile = LogFile(name: string, content: seq<byte>, modified: nat, history: seq<Entry>)

  datatype Entry = Entry(record: Record, bucketAt: nat, writtenAt: nat)

  type Directory = seq<LogFile>

  /** The clock readings of one append, in the order the code takes them. */
  datatype Readings = Readings(prune: nat, bucket: nat, rotateNanos: U64, pruneAgain: nat, write: nat)

  predicate InOrder(since: nat, t: Readings) {
    since <= t.prune <= t.bucket <= t.pruneAgain <= t.write
  }

  function DailyName(ms: nat): string { "events-" + Decimal(ms / DAY) + ".jsonl" }

  function OverflowName(id: string): string { "events-overflow-" + id + ".jsonl" }

  // ----- pruning -----

  function Cutoff(now: nat): nat { if now < WEEK then 0 else now - WEEK }

  predicate Expired(f: LogFile, now: nat) { "events-" <= f.name && f.modified < Cutoff(now) }

  function Kept(dir: Directory, now: nat): (kept: Directory)
    ensures forall f :: f in kept <==> f in dir && !Expired(f, now)
  {
    if dir == [] then []
    else (if Expired(dir[0], now) then [] else [dir[0]]) + Kept(dir[1..], now)
  }

  function Dropped(dir: Directory, now: nat): (dropped: Directory)
    ensures forall f :: f in dropped <==> f in dir && Expired(f, now)
  {
    if dir == [] then []
    else (if Expired(dir[0], now) then [dir[0]] else []) + Dropped(dir[1..], now)
  }

  lemma {:induction false} KeptAppend(a: Directory, b: Directory, now: nat)
    ensures Kept(a + b, now) == Kept(a, now) + Kept(b, now)
  {
    if a == [] {
      assert a + b == b;
    } else {
      assert (a + b)[1..] == a[1..] + b;
      KeptAppend(a[1..], b, now);
    }
  }

  lemma KeptSnoc(dir: Directory, k: nat, now: nat)
    requires k < |dir|
    ensures Kept(dir[..k + 1], now) == Kept(dir[..k], now) + if Expired(dir[k], now) then [] else [dir[k]]
  {
    assert dir[..k + 1] == dir[..k] + [dir[k]];
    KeptAppend(dir[..k], [dir[k]], now);
  }

  /** Only spool files last written more than a week ago are pruned. */
  lemma PrunedExactly(dir: Directory, now: nat, f: LogFile)
    ensures f in Kept(dir, now) <==> f in dir && !("events-" <= f.name && f.modified + 7 * 24 * 60 * 60 * 1000 < now)
  {
  }

  // ----- the file system operations an append uses -----

  predicate NameFree(dir: Directory, name: string) { forall f :: f in dir ==> f.name != name }

  predicate UniqueNames(dir: Directory) {
    dir != [] ==> NameFree(dir[1..], dir[0].name) && UniqueNames(dir[1..])
  }

  /** `metadata().len()`, or 0 when there is no such file. */
  function SizeOf(dir: Directory, name: string): nat {
    if dir == [] then 0
    else if dir[0].name == name then |dir[0].content|
    else SizeOf(dir[1..], name)
  }

  /** `rename(2)`: a file already called `to` is replaced. */
  function Rename(dir: Directory, from: string, to: string): Directory {
    if dir == [] then []
    else
      var rest := Rename(dir[1..], from, to);
      if dir[0].name == from then [dir[0].(name := to)] + rest
      else if dir[0].name == to then rest
      else [dir[0]] + rest
  }

  /** Open with `create` and `append`, then one write. */
  function Write(dir: Directory, name: string, payload: seq<byte>, entry: Entry): Directory {
    if dir == [] then [LogFile(name, payload, entry.writtenAt, [entry])]
    else if dir[0].name == name then
      var f := dir[0];
      [f.(content := f.content + payload, modified := entry.writtenAt, history := f.history + [entry])] + dir[1..]
    else [dir[0]] + Write(dir[1..], name, payload, entry)
  }

  // ----- append -----

  /** The directory and the id counter, which rotation also draws from. */
  datatype Spool = Spool(files: Directory, counter: U64)

  function SaturatingAdd(a: nat, b: nat): nat { if a + b > U64_MAX then U64_MAX else a + b }

  predicate MustRotate(dir: Directory, name: string, size: nat, maxBytes: nat) {
    var len := SizeOf(dir, name);
    len > 0 && SaturatingAdd(len, size) > maxBytes
  }

  function Rotate(dir: Directory, name: string, counter: U64, pid: U32): Directory {
    Rename(dir, name, OverflowName(RecordIds.Format(counter, pid)))
  }

  function Append(codec: Codec, pid: U32, maxBytes: nat, s: Spool, record: Record, t: Readings): Spool {
    var pruned := Kept(s.files, t.prune);
    var payload, name := codec.Payload(record), DailyName(t.bucket);
    var entry := Entry(record, t.bucket, t.write);
    if MustRotate(pruned, name, |payload|, maxBytes) then
      var rotated := Kept(Rotate(pruned, name, s.counter, pid), t.pruneAgain);
      Spool(Write(rotated, name, payload, entry), RecordIds.Advance(s.counter, t.rotateNanos))
    else
      Spool(Write(pruned, name, payload, entry), s.counter)
  }

  /** What the two prunes of an append delete. */
  function Pruned(codec: Codec, pid: U32, maxBytes: nat, s: Spool, record: Record, t: Readings): Directory {
    var pruned := Kept(s.files, t.prune);
    var name := DailyName(t.bucket);
    Dropped(s.files, t.prune) +
    (if MustRotate(pruned, name, |codec.Payload(record)|, maxBytes)
     then Dropped(Rotate(pruned, name, s.counter, pid), t.pruneAgain) else [])
  }

  /** The spool object: every method holds the process-wide lock. */
  class LogSpool {
    var files: Directory
    const codec: Codec
    const maxBytes: nat

    constructor (codec: Codec, maxBytes: nat)
      ensures files == [] && this.codec == codec && this.maxBytes == maxBytes
    {
      files := [];
      this.codec := codec;
      this.maxBytes := maxBytes;
    }

    method Prune(now: nat)
      modifies this
      ensures files == Kept(old(files), now)
    {
      var k: nat, kept: Directory := 0, [];
      while k < |files|
        invariant k <= |files| && files == old(files)
        invariant kept == Kept(files[..k], now)
      {
        KeptSnoc(files, k, now);
        if !Expired(files[k], now) {
          kept := kept + [files[k]];
        }
        k := k + 1;
      }
      assert files[..k] == files;
      files := kept;
    }

    method AppendWithLimit(record: Record, ids: RecordIds.Source, t: Readings)
      modifies this, ids
      ensures var after := Append(codec, ids.pid, maxBytes, Spool(old(files), old(ids.last)), record, t);
              files == after.files && ids.last == after.counter
    {
      Prune(t.prune);
      var payload, name := codec.Payload(record), DailyName(t.bucket);
      if MustRotate(files, name, |payload|, maxBytes) {
        var id := ids.Next(t.rotateNanos);
        files := Rename(files, name, OverflowName(id));
        Prune(t.pruneAgain);
      }
      files := Write(files, name, payload, Entry(record, t.bucket, t.write));
    }
  }
}
