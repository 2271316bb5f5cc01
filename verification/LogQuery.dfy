/** Answering a log query: collect, sort newest first, resume after a cursor, cut a page. */
module LogQuery {
  import opened Text
  import opened LogRecords
  import opened LogSpool

  // ----- order -----

  datatype Ordering = Before | Equal | After

  /** Newest first: by timestamp, then by id as a string, both descending. */
  function Compare(left: Record, right: Record): Ordering {
    if right.timestamp < left.timestamp then Before
    else if right.timestamp > left.timestamp then After
    else if Less(right.id, left.id) then Before
    else if right.id == left.id then Equal
    else After
  }

  predicate Precedes(a: Record, b: Record) { Compare(a, b) == Before }

  predicate SameKey(a: Record, b: Record) { a.timestamp == b.timestamp && a.id == b.id }

  predicate DistinctKeys(s: seq<Record>) {
    forall i, j :: 0 <= i < j < |s| ==> !SameKey(s[i], s[j])
  }

  predicate Sorted(s: seq<Record>) {
    forall i, j :: 0 <= i < j < |s| ==> Compare(s[i], s[j]) != After
  }

  lemma CompareIsTotalOrder(a: Record, b: Record, c: Record)
    ensures Compare(a, b) == Equal <==> SameKey(a, b)
    ensures Precedes(a, b) <==> Compare(b, a) == After
    ensures Compare(a, b) != After && Compare(b, c) != After ==> Compare(a, c) != After
    ensures Precedes(a, b) && Compare(b, c) != After ==> Precedes(a, c)
    ensures Compare(a, b) != After && Precedes(b, c) ==> Precedes(a, c)
  {
    LessTotal(a.id, b.id);
    LessTotal(b.id, c.id);
    if Less(a.id, b.id) { LessAsymmetric(a.id, b.id); }
    if Less(b.id, a.id) { LessAsymmetric(b.id, a.id); }
    if Less(b.id, c.id) { LessAsymmetric(b.id, c.id); }
    if Less(c.id, b.id) && Less(b.id, a.id) { LessTransitive(c.id, b.id, a.id); }
  }

  // ----- sorting -----

  function Insert(r: Record, s: seq<Record>): seq<Record> {
    if s == [] || Compare(r, s[0]) != After then [r] + s else [s[0]] + Insert(r, s[1..])
  }

  /** One sorting of `s`; with distinct keys it is the only one. */
  function Sort(s: seq<Record>): seq<Record> {
    if s == [] then [] else Insert(s[0], Sort(s[1..]))
  }

  lemma {:induction false} InsertFacts(r: Record, s: seq<Record>)
    requires Sorted(s)
    ensures Sorted(Insert(r, s)) && multiset(Insert(r, s)) == multiset(s) + multiset{r}
  {
    hide Less;
    if s == [] {
    } else if Compare(r, s[0]) != After {
      forall j | 0 <= j < |s| ensures Compare(r, s[j]) != After { CompareIsTotalOrder(r, s[0], s[j]); }
    } else {
      InsertFacts(r, s[1..]);
      var t := Insert(r, s[1..]);
      assert s == [s[0]] + s[1..];
      CompareIsTotalOrder(s[0], r, r);
      forall j | 0 <= j < |t| ensures Compare(s[0], t[j]) != After {
        assert t[j] in multiset(t);
        if t[j] in s[1..] { var k :| 0 <= k < |s[1..]| && s[1..][k] == t[j]; assert s[k + 1] == t[j]; }
      }
    }
  }

  lemma {:induction false} SortFacts(s: seq<Record>)
    ensures Sorted(Sort(s)) && multiset(Sort(s)) == multiset(s)
  {
    hide Compare;
    if s != [] {
      SortFacts(s[1..]);
      InsertFacts(s[0], Sort(s[1..]));
      assert s == [s[0]] + s[1..];
    }
  }

  lemma DistinctCount(s: seq<Record>, i: nat)
    requires DistinctKeys(s) && i < |s|
    ensures multiset(s)[s[i]] == 1
  {
    assert s == s[..i] + [s[i]] + s[i + 1..];
    assert s[i] !in s[..i] && s[i] !in s[i + 1..];
  }

  /** The first of a sorted list is found by its place in the order. */
  lemma HeadsAgree(a: seq<Record>, b: seq<Record>)
    requires Sorted(a) && Sorted(b) && DistinctKeys(a) && a != [] && b != []
    requires b[0] in a && a[0] in b
    ensures a[0] == b[0]
  {
    var i :| 0 <= i < |a| && a[i] == b[0];
    var j :| 0 <= j < |b| && b[j] == a[0];
    if i > 0 && j > 0 {
      CompareIsTotalOrder(a[0], a[i], a[0]);
    }
  }

  /** Sorted lists of the same distinct-key records are equal, so an unstable sort has one result. */
  lemma {:induction false} SortedIsUnique(a: seq<Record>, b: seq<Record>)
    requires Sorted(a) && Sorted(b) && DistinctKeys(a) && multiset(a) == multiset(b)
    ensures a == b
  {
    assert |a| == |multiset(a)| == |multiset(b)| == |b|;
    if a != [] {
      assert a[0] in multiset(b) && b[0] in multiset(a);
      HeadsAgree(a, b);
      SplitHead(a);
      SplitHead(b);
      SortedIsUnique(a[1..], b[1..]);
    }
  }

  lemma SplitHead(s: seq<Record>)
    requires s != []
    ensures s == [s[0]] + s[1..]
    ensures multiset(s[1..]) == multiset(s) - multiset{s[0]}
  {
    assert s == [s[0]] + s[1..];
  }

  // ----- cursors -----

  function EncodeCursor(r: Record): string { Decimal(r.timestamp) + "|" + r.id }

  /** Cut at the first `|`; the part before it must be a u64. */
  function DecodeCursor(cursor: string): Option<(U64, string)> {
    match IndexOf(cursor, '|')
    case None => None
    case Some(p) =>
      match ParseU64(cursor[..p])
      case None => None
      case Some(timestamp) => Some((timestamp, cursor[p + 1..]))
  }

  /** A cursor gives back timestamp and id, for any id at all. */
  lemma CursorRoundTrip(r: Record)
    ensures DecodeCursor(EncodeCursor(r)) == Some((r.timestamp, r.id))
  {
    var d, c := Decimal(r.timestamp), EncodeCursor(r);
    assert c == d + ['|'] + r.id;
    IndexOfFirst(d, '|', r.id);
    assert c[..|d|] == d && c[|d| + 1..] == r.id;
    ParseOfDecimal(r.timestamp);
  }

  // ----- one page -----

  predicate Older(r: Record, timestamp: U64, id: string) {
    r.timestamp < timestamp || (r.timestamp == timestamp && Less(r.id, id))
  }

  function Retain(s: seq<Record>, timestamp: U64, id: string): seq<Record> {
    if s == [] then []
    else (if Older(s[0], timestamp, id) then [s[0]] else []) + Retain(s[1..], timestamp, id)
  }

  function Position(s: seq<Record>, id: string): (p: Option<nat>)
    ensures p.Some? ==> p.value < |s| && s[p.value].id == id && forall i :: 0 <= i < p.value ==> s[i].id != id
    ensures p.None? ==> forall i :: 0 <= i < |s| ==> s[i].id != id
  {
    if s == [] then None
    else if s[0].id == id then Some(0)
    else match Position(s[1..], id)
      case None => None
      case Some(i) => Some(i + 1)
  }

  /** What is left to show after a cursor. A string that is not a cursor is taken for a bare record
      id; if no such record is there, the listing starts over. */
  function Resume(s: seq<Record>, cursor: Option<string>): seq<Record> {
    match cursor
    case None => s
    case Some(c) =>
      match DecodeCursor(c)
      case Some((timestamp, id)) => Retain(s, timestamp, id)
      case None => match Position(s, c)
        case Some(p) => s[p + 1..]
        case None => s
  }

  lemma OlderIsPrecedes(a: Record, b: Record)
    ensures Older(b, a.timestamp, a.id) <==> Precedes(a, b)
  {
  }

  /** On a sorted list, keeping the records older than `r` is dropping a prefix. */
  lemma {:induction false} RetainIsSuffix(s: seq<Record>, r: Record) returns (m: nat)
    requires Sorted(s)
    ensures m <= |s| && Retain(s, r.timestamp, r.id) == s[m..]
    ensures forall i :: 0 <= i < |s| ==> (m <= i <==> Precedes(r, s[i]))
  {
    hide Less;
    if s == [] {
      m := 0;
    } else {
      var k := RetainIsSuffix(s[1..], r);
      OlderIsPrecedes(r, s[0]);
      assert forall i :: 1 <= i < |s| ==> s[i] == s[1..][i - 1];
      if Precedes(r, s[0]) {
        forall i | 0 <= i < |s| ensures Precedes(r, s[i]) {
          if i > 0 { CompareIsTotalOrder(r, s[0], s[i]); }
        }
        assert forall i :: 0 <= i < |s[1..]| ==> Precedes(r, s[1..][i]);
        m := 0;
      } else {
        m := k + 1;
      }
    }
  }

  lemma ResumeIsSuffix(s: seq<Record>, cursor: Option<string>) returns (m: nat)
    requires Sorted(s)
    ensures m <= |s| && Resume(s, cursor) == s[m..]
  {
    m := 0;
    if cursor.Some? {
      match DecodeCursor(cursor.value)
      case Some((timestamp, id)) =>
        var r := Record(id, timestamp, "", None, None, None, None, "", "");
        m := RetainIsSuffix(s, r);
      case None =>
        m := match Position(s, cursor.value) case Some(p) => p + 1 case None => 0;
    }
  }

  function Clamp(limit: nat): nat { if limit < 1 then 1 else if limit > 500 then 500 else limit }

  datatype Page = Page(records: seq<Record>, next: Option<string>)

  function Cut(rest: seq<Record>, limit: nat): Page {
    var n := Clamp(limit);
    if |rest| > n then Page(rest[..n], Some(EncodeCursor(rest[n - 1]))) else Page(rest, None)
  }

  function PageAfter(s: seq<Record>, cursor: Option<string>, limit: nat): Page {
    Cut(Resume(s, cursor), limit)
  }

  predicate NewestFirst(rs: seq<Record>) {
    forall i, j :: 0 <= i < j < |rs| ==>
      rs[i].timestamp > rs[j].timestamp || (rs[i].timestamp == rs[j].timestamp && !Less(rs[i].id, rs[j].id))
  }

  /** At most `limit` records, but at least one allowed and never more than 500; as many as allowed if
      there are more. */
  predicate SizedFor(p: Page, limit: nat) {
    && |p.records| <= 500 && (|p.records| <= limit || |p.records| <= 1)
    && (p.next.Some? ==> |p.records| == 500 || |p.records| == limit || (limit == 0 && |p.records| == 1))
  }

  /** A page shows the next records, newest first, as many as its size allows, and has a cursor exactly
      when it does not show all. */
  lemma PageFacts(s: seq<Record>, cursor: Option<string>, limit: nat)
    requires Sorted(s)
    ensures var p, rest := PageAfter(s, cursor, limit), Resume(s, cursor);
            && p.records <= rest && (p.next.Some? <==> |p.records| < |rest|)
            && NewestFirst(p.records) && SizedFor(p, limit)
            && forall r :: r in p.records ==> r in s
  {
    var a := ResumeIsSuffix(s, cursor);
    var p := PageAfter(s, cursor, limit);
    forall i, j | 0 <= i < j < |p.records|
      ensures Compare(p.records[i], p.records[j]) != After && p.records[j] == s[a + j]
    {
      assert p.records[i] == s[a + i] && p.records[j] == s[a + j];
    }
    forall i, j | 0 <= i < j < |p.records| && Less(p.records[i].id, p.records[j].id)
      ensures p.records[i].timestamp != p.records[j].timestamp
    {
      LessAsymmetric(p.records[i].id, p.records[j].id);
      assert Compare(p.records[i], p.records[j]) != After;
    }
  }

  // ----- collecting -----

  predicate IsLogFile(name: string) { |name| > 6 && name[|name| - 6..] == ".jsonl" }

  predicate Wanted(r: Record, scope: Option<string>, resourceId: Option<string>) {
    && (scope.Some? ==> r.scope == scope.value)
    && (resourceId.Some? ==> r.resourceId == resourceId || r.jobId == resourceId)
  }

  function Filter(rs: seq<Record>, scope: Option<string>, resourceId: Option<string>): seq<Record> {
    if rs == [] then []
    else (if Wanted(rs[0], scope, resourceId) then [rs[0]] else []) + Filter(rs[1..], scope, resourceId)
  }

  function Collect(codec: Codec, dir: Directory, scope: Option<string>, resourceId: Option<string>): seq<Record> {
    if dir == [] then []
    else
      (if IsLogFile(dir[0].name) then Filter(codec.Parse(dir[0].content), scope, resourceId) else [])
      + Collect(codec, dir[1..], scope, resourceId)
  }

  lemma {:induction false} FilterAppend(a: seq<Record>, b: seq<Record>, scope: Option<string>, resourceId: Option<string>)
    ensures Filter(a + b, scope, resourceId) == Filter(a, scope, resourceId) + Filter(b, scope, resourceId)
  {
    if a == [] {
      assert a + b == b;
    } else {
      assert (a + b)[1..] == a[1..] + b;
      FilterAppend(a[1..], b, scope, resourceId);
    }
  }

  lemma {:induction false} DecodeAppend(codec: Codec, a: seq<seq<byte>>, b: seq<seq<byte>>)
    ensures codec.DecodeAll(a + b) == codec.DecodeAll(a) + codec.DecodeAll(b)
  {
    if a == [] {
      assert a + b == b;
    } else {
      assert (a + b)[1..] == a[1..] + b;
      DecodeAppend(codec, a[1..], b);
    }
  }

  lemma {:induction false} CollectAppend(codec: Codec, a: Directory, b: Directory, scope: Option<string>, resourceId: Option<string>)
    ensures Collect(codec, a + b, scope, resourceId)
         == Collect(codec, a, scope, resourceId) + Collect(codec, b, scope, resourceId)
  {
    if a == [] {
      assert a + b == b;
    } else {
      assert (a + b)[1..] == a[1..] + b;
      CollectAppend(codec, a[1..], b, scope, resourceId);
    }
  }

  lemma {:induction false} FilterMembers(rs: seq<Record>, scope: Option<string>, resourceId: Option<string>)
    ensures forall r :: r in Filter(rs, scope, resourceId) <==> r in rs && Wanted(r, scope, resourceId)
  {
    hide Wanted;
    if rs != [] {
      FilterMembers(rs[1..], scope, resourceId);
      assert rs == [rs[0]] + rs[1..];
    }
  }

  lemma LogFileExactly(name: string)
    ensures IsLogFile(name) <==> exists stem :: stem != [] && name == stem + ".jsonl"
  {
    if IsLogFile(name) { assert name == name[..|name| - 6] + ".jsonl"; }
  }

  /** What is collected: the records of `.jsonl` files, with the scope and the resource or job asked for. */
  lemma {:induction false} CollectedExactly(codec: Codec, dir: Directory, scope: Option<string>, resourceId: Option<string>, r: Record)
    ensures r in Collect(codec, dir, scope, resourceId)
       <==> && (exists f :: f in dir && IsLogFile(f.name) && r in codec.Parse(f.content))
            && (scope.Some? ==> r.scope == scope.value)
            && (resourceId.Some? ==> r.resourceId == resourceId || r.jobId == resourceId)
  {
    if dir != [] {
      CollectedExactly(codec, dir[1..], scope, resourceId, r);
      FilterMembers(codec.Parse(dir[0].content), scope, resourceId);
      assert dir == [dir[0]] + dir[1..];
    }
  }

  // ----- the query -----

  /** `page` is the answer for some way the unstable sort may order equal keys. */
  ghost predicate Answers(all: seq<Record>, cursor: Option<string>, limit: nat, page: Page) {
    exists s :: Sorted(s) && multiset(s) == multiset(all) && page == PageAfter(s, cursor, limit)
  }

  method SortUnstable(records: seq<Record>) returns (s: seq<Record>)
    ensures Sorted(s) && multiset(s) == multiset(records)
  {
    SortFacts(records);
    s := Sort(records);
  }

  /** The inner loop: push every wanted record of one file. */
  method ReadFile(codec: Codec, content: seq<byte>, scope: Option<string>, resourceId: Option<string>,
                  before: seq<Record>) returns (records: seq<Record>)
    ensures records == before + Filter(codec.Parse(content), scope, resourceId)
  {
    records := before;
    var lines := Lines(content);
    var k := 0;
    while k < |lines|
      invariant k <= |lines|
      invariant records == before + Filter(codec.DecodeAll(lines[..k]), scope, resourceId)
      decreases |lines| - k
    {
      assert lines[..k + 1] == lines[..k] + [lines[k]];
      DecodeAppend(codec, lines[..k], [lines[k]]);
      FilterAppend(codec.DecodeAll(lines[..k]), codec.DecodeAll([lines[k]]), scope, resourceId);
      match codec.de(lines[k]) {
      case None =>
      case Some(record) =>
        if Wanted(record, scope, resourceId) {
          records := records + [record];
        }
      }
      k := k + 1;
    }
    assert lines[..k] == lines;
  }

  /** The outer loop, over the files of the directory. */
  method ReadDirectory(codec: Codec, dir: Directory, scope: Option<string>, resourceId: Option<string>)
    returns (records: seq<Record>)
    ensures records == Collect(codec, dir, scope, resourceId)
  {
    records := [];
    var i := 0;
    while i < |dir|
      invariant i <= |dir|
      invariant records == Collect(codec, dir[..i], scope, resourceId)
    {
      assert dir[..i + 1] == dir[..i] + [dir[i]];
      CollectAppend(codec, dir[..i], [dir[i]], scope, resourceId);
      if IsLogFile(dir[i].name) {
        records := ReadFile(codec, dir[i].content, scope, resourceId, records);
      }
      i := i + 1;
    }
    assert dir[..i] == dir;
  }

  method CutPage(rest: seq<Record>, limit: nat) returns (page: Page)
    ensures page == Cut(rest, limit)
  {
    var n := Clamp(limit);
    var hasMore := |rest| > n;
    var records := if hasMore then rest[..n] else rest;
    var next := if hasMore then Some(EncodeCursor(records[|records| - 1])) else None;
    page := Page(records, next);
  }

  method Query(codec: Codec, directory: Option<Directory>, scope: Option<string>, resourceId: Option<string>,
               cursor: Option<string>, limit: nat) returns (page: Page)
    ensures directory.None? ==> page == Page([], None)
    ensures directory.Some? ==> Answers(Collect(codec, directory.value, scope, resourceId), cursor, limit, page)
    ensures forall r :: r in page.records ==>
              && (scope.Some? ==> r.scope == scope.value)
              && (resourceId.Some? ==> r.resourceId == resourceId || r.jobId == resourceId)
    ensures NewestFirst(page.records) && SizedFor(page, limit)
  {
    if directory.None? { return Page([], None); }
    var records := ReadDirectory(codec, directory.value, scope, resourceId);
    ghost var all := records;
    records := SortUnstable(records);
    page := CutPage(Resume(records, cursor), limit);
    assert page == PageAfter(records, cursor, limit);
    PageFacts(records, cursor, limit);
    forall r | r in page.records
      ensures (scope.Some? ==> r.scope == scope.value) && (resourceId.Some? ==> r.resourceId == resourceId || r.jobId == resourceId)
    {
      assert r in multiset(records) && r in all;
      CollectedExactly(codec, directory.value, scope, resourceId, r);
    }
  }

  /** With distinct keys the answer does not depend on the sort or on the order of the files. */
  lemma AnswerIsUnique(all: seq<Record>, cursor: Option<string>, limit: nat, page: Page)
    requires DistinctKeys(all) && Answers(all, cursor, limit, page)
    ensures page == PageAfter(Sort(all), cursor, limit)
  {
    var s :| Sorted(s) && multiset(s) == multiset(all) && page == PageAfter(s, cursor, limit);
    SortFacts(all);
    DistinctAfterSort(all, Sort(all));
    SortedIsUnique(Sort(all), s);
  }

  lemma RepeatCount(s: seq<Record>, i: nat, j: nat)
    requires i < j < |s| && s[i] == s[j]
    ensures multiset(s)[s[i]] >= 2
  {
    assert s == s[..j] + s[j..];
    assert s[..j][i] == s[i] && s[j..][0] == s[j];
  }

  lemma DistinctAfterSort(a: seq<Record>, b: seq<Record>)
    requires DistinctKeys(a) && multiset(a) == multiset(b)
    ensures DistinctKeys(b)
  {
    forall i, j | 0 <= i < j < |b| ensures !SameKey(b[i], b[j]) {
      assert b[i] in multiset(a) && b[j] in multiset(a);
      var x :| 0 <= x < |a| && a[x] == b[i];
      var y :| 0 <= y < |a| && a[y] == b[j];
      if b[i] == b[j] {
        RepeatCount(b, i, j);
        DistinctCount(a, x);
      }
    }
  }
}
