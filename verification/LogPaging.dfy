/** Following page cursors agrees with reading the whole sorted list, even while the spool changes. */
module LogPaging {
  import opened Text
  import opened LogRecords
  import opened LogQuery

  // ----- a cursor is a place in the sorted list -----

  /** The cursor of a record in the list resumes strictly after it, skipping only records with its key. */
  lemma ResumeAfter(s: seq<Record>, k: nat) returns (m: nat)
    requires Sorted(s) && k < |s|
    ensures k < m <= |s| && Resume(s, Some(EncodeCursor(s[k]))) == s[m..]
    ensures forall i :: 0 <= i < |s| ==> (m <= i <==> Precedes(s[k], s[i]))
    ensures forall i :: k <= i < m ==> SameKey(s[k], s[i])
    ensures DistinctKeys(s) ==> m == k + 1
  {
    CursorRoundTrip(s[k]);
    m := RetainIsSuffix(s, s[k]);
    CompareIsTotalOrder(s[k], s[k], s[k]);
    forall i | k <= i < m ensures SameKey(s[k], s[i]) { CompareIsTotalOrder(s[k], s[i], s[k]); }
    assert m > k + 1 ==> SameKey(s[k], s[k + 1]);
  }

  /** A bare id, as older agents sent it, resumes where the record's own cursor does exactly when it is
      the id of no newer record or, if it can be read as a cursor itself, when the place it names lies
      between this record and the next. */
  lemma LegacyCursor(s: seq<Record>, k: nat)
    requires Sorted(s) && DistinctKeys(s) && k < |s|
    ensures Resume(s, Some(s[k].id)) == Resume(s, Some(EncodeCursor(s[k])))
       <==> match DecodeCursor(s[k].id)
            case None => forall i :: 0 <= i < k ==> s[i].id != s[k].id
            case Some((timestamp, id)) =>
              !Older(s[k], timestamp, id) && (k + 1 < |s| ==> Older(s[k + 1], timestamp, id))
  {
    var m := ResumeAfter(s, k);
    match DecodeCursor(s[k].id)
    case None =>
      var p := Position(s, s[k].id).value;
      assert |s[p + 1..]| == |s| - p - 1 && |s[m..]| == |s| - m;
    case Some((timestamp, id)) =>
      var r := Record(id, timestamp, "", None, None, None, None, "", "");
      var n := RetainIsSuffix(s, r);
      OlderIsPrecedes(r, s[k]);
      if k + 1 < |s| { OlderIsPrecedes(r, s[k + 1]); }
      assert |s[n..]| == |s| - n && |s[m..]| == |s| - m;
  }

  /** A cursor that is no place and no record's id starts over; a place does if all records are older. */
  lemma StartsOverExactly(s: seq<Record>, c: string)
    requires Sorted(s) && s != []
    ensures Resume(s, Some(c)) == s
       <==> match DecodeCursor(c)
            case None => forall i :: 0 <= i < |s| ==> s[i].id != c
            case Some((timestamp, id)) =>
              forall i :: 0 <= i < |s| ==> s[i].timestamp < timestamp || (s[i].timestamp == timestamp && Less(s[i].id, id))
  {
    hide Less;
    match DecodeCursor(c)
    case None =>
      if Position(s, c).Some? {
        var p := Position(s, c).value;
        assert |s[p + 1..]| < |s|;
      }
    case Some((timestamp, id)) =>
      var r := Record(id, timestamp, "", None, None, None, None, "", "");
      var m := RetainIsSuffix(s, r);
      assert |s[m..]| == |s| - m;
      forall i | 0 <= i < |s| ensures Older(s[i], timestamp, id) <==> m <= i { OlderIsPrecedes(r, s[i]); }
  }

  // ----- the walk -----

  lemma NextShrinks(s: seq<Record>, cursor: Option<string>, limit: nat)
    requires Sorted(s)
    ensures var p := PageAfter(s, cursor, limit);
            p.next.Some? ==> |Resume(s, p.next)| < |Resume(s, cursor)|
  {
    var p := PageAfter(s, cursor, limit);
    var a := ResumeIsSuffix(s, cursor);
    if p.next.Some? {
      var m := ResumeAfter(s, a + Clamp(limit) - 1);
    }
  }

  /** The pages a client sees that follows `next` until there is none. Every walk ends. */
  function Walk(s: seq<Record>, cursor: Option<string>, limit: nat): seq<seq<Record>>
    requires Sorted(s)
    decreases |Resume(s, cursor)|
  {
    var p := PageAfter(s, cursor, limit);
    if p.next.None? then [p.records]
    else NextShrinks(s, cursor, limit); [p.records] + Walk(s, p.next, limit)
  }

  lemma PageOfSuffix(s: seq<Record>, cursor: Option<string>, limit: nat) returns (a: nat)
    requires Sorted(s)
    ensures a <= |s| && Resume(s, cursor) == s[a..]
    ensures var p, n := PageAfter(s, cursor, limit), Clamp(limit);
            if p.next.None? then p.records == s[a..]
            else a + n < |s| && p.records == s[a..][..n] && p.next == Some(EncodeCursor(s[a + n - 1]))
  {
    a := ResumeIsSuffix(s, cursor);
  }

  /** A page and what its cursor resumes at make up what was left to show. */
  lemma PageAndRest(s: seq<Record>, cursor: Option<string>, p: Page, limit: nat)
    requires Sorted(s) && DistinctKeys(s) && p == PageAfter(s, cursor, limit)
    ensures Resume(s, cursor) == p.records + if p.next.None? then [] else Resume(s, p.next)
  {
    hide Resume, EncodeCursor, Sorted, DistinctKeys, Precedes, SameKey;
    var a := PageOfSuffix(s, cursor, limit);
    if p.next.Some? {
      var n := Clamp(limit);
      var m := ResumeAfter(s, a + n - 1);
      CutSuffix(s, a, n);
    }
  }

  lemma CutSuffix<T>(s: seq<T>, a: nat, n: nat)
    requires a + n <= |s|
    ensures s[a..] == s[a..][..n] + s[a + n..]
  {
  }

  lemma {:induction false} WalkFrom(s: seq<Record>, cursor: Option<string>, limit: nat)
    requires Sorted(s) && DistinctKeys(s)
    ensures Flatten(Walk(s, cursor, limit)) == Resume(s, cursor)
    decreases |Resume(s, cursor)|
  {
    var p := PageAfter(s, cursor, limit);
    PageAndRest(s, cursor, p, limit);
    if p.next.None? {
      assert Flatten([p.records]) == p.records + Flatten([]);
    } else {
      NextShrinks(s, cursor, limit);
      WalkFrom(s, p.next, limit);
      var w := Walk(s, p.next, limit);
      assert ([p.records] + w)[1..] == w;
    }
  }

  /** With distinct keys, the pages put together are the whole sorted list, for every limit. */
  lemma WalkIsComplete(s: seq<Record>, limit: nat)
    requires Sorted(s) && DistinctKeys(s)
    ensures Flatten(Walk(s, None, limit)) == s
  {
    WalkFrom(s, None, limit);
  }

  // ----- and only with distinct keys -----

  predicate StrictlyDescending(s: seq<Record>) {
    forall i, j :: 0 <= i < j < |s| ==> Precedes(s[i], s[j])
  }

  lemma {:induction false} WalkByOneIsStrict(s: seq<Record>, cursor: Option<string>)
    requires Sorted(s)
    ensures StrictlyDescending(Flatten(Walk(s, cursor, 1)))
    ensures forall r :: r in Flatten(Walk(s, cursor, 1)) ==> r in Resume(s, cursor)
    decreases |Resume(s, cursor)|
  {
    hide Resume, EncodeCursor, Sorted, Compare;
    var p := PageAfter(s, cursor, 1);
    var a := ResumeIsSuffix(s, cursor);
    if p.next.None? {
      assert Flatten([p.records]) == p.records + Flatten([]) == p.records;
    } else {
      NextShrinks(s, cursor, 1);
      WalkByOneIsStrict(s, p.next);
      var m := ResumeAfter(s, a);
      var w := Walk(s, p.next, 1);
      assert ([p.records] + w)[1..] == w;
      assert p.records == [s[a]];
      forall r | r in Flatten(w) ensures Precedes(s[a], r) && r in s[a..] {
        assert r in s[m..];
        var i :| 0 <= i < |s[m..]| && s[m..][i] == r;
        assert s[m + i] == r && s[a..][m + i - a] == r;
      }
    }
  }

  /** Pagination returns every record at every page size if and only if keys are distinct. */
  lemma CompleteExactlyWhenKeysDistinct(s: seq<Record>)
    requires Sorted(s)
    ensures (forall limit: nat :: Flatten(Walk(s, None, limit)) == s) <==> DistinctKeys(s)
  {
    if DistinctKeys(s) {
      forall limit: nat ensures Flatten(Walk(s, None, limit)) == s { WalkIsComplete(s, limit); }
    } else {
      var i, j :| 0 <= i < j < |s| && SameKey(s[i], s[j]);
      WalkByOneIsStrict(s, None);
      CompareIsTotalOrder(s[i], s[j], s[i]);
      assert Flatten(Walk(s, None, 1)) != s;
    }
  }

  // ----- the spool changes between pages -----

  /** One request of a walk: the sorted matching records at that moment, the cursor sent, and the answer. */
  datatype Visit = Visit(view: seq<Record>, cursor: Option<string>, page: Page)

  predicate Answered(v: Visit, limit: nat) {
    Sorted(v.view) && DistinctKeys(v.view) && v.page == PageAfter(v.view, v.cursor, limit)
  }

  predicate IsWalk(v: seq<Visit>, limit: nat) {
    && (forall k :: 0 <= k < |v| ==> Answered(v[k], limit))
    && (v != [] ==> v[0].cursor == None)
    && (forall k :: 0 < k < |v| ==> Follows(v, k))
  }

  predicate Follows(v: seq<Visit>, k: nat)
    requires 0 < k < |v|
  {
    v[k - 1].page.next.Some? && v[k].cursor == v[k - 1].page.next
  }

  /** The record whose cursor ended page `k`. */
  function LastOf(v: Visit): Record
    requires v.page.records != []
  {
    v.page.records[|v.page.records| - 1]
  }

  lemma VisitFacts(v: Visit, limit: nat)
    requires Answered(v, limit)
    ensures v.page.next.Some? ==> v.page.records != [] && v.page.next == Some(EncodeCursor(LastOf(v)))
    ensures forall r :: r in v.page.records ==> r in Resume(v.view, v.cursor)
    ensures forall r :: r in v.page.records ==> v.page.next.Some? ==> Compare(r, LastOf(v)) != After
  {
    var a := ResumeIsSuffix(v.view, v.cursor);
    if v.page.records != [] {
      var last := LastOf(v);
      CompareIsTotalOrder(last, last, last);
    }
  }

  lemma PageHasNoRepeats(v: Visit, limit: nat, i: nat, j: nat)
    requires Answered(v, limit)
    requires i < j < |v.page.records|
    ensures v.page.records[i] != v.page.records[j]
  {
    var a := ResumeIsSuffix(v.view, v.cursor);
    assert v.page.records[i] == v.view[a + i] && v.page.records[j] == v.view[a + j];
  }

  /** A record left to show is on the page, or comes after its last record. */
  lemma ShownOrPassed(v: Visit, limit: nat, r: Record)
    requires Answered(v, limit) && r in Resume(v.view, v.cursor)
    ensures r in v.page.records
         || (v.page.next.Some? && v.page.records != [] && Precedes(LastOf(v), r))
  {
    var a := ResumeIsSuffix(v.view, v.cursor);
    var rest, n := v.view[a..], Clamp(limit);
    var i :| 0 <= i < |rest| && rest[i] == r;
    if r !in v.page.records {
      assert |rest| > n && i >= n;
      assert LastOf(v) == v.view[a + n - 1] && r == v.view[a + i];
      CompareIsTotalOrder(LastOf(v), r, r);
    }
  }

  /** A request with the cursor of `r` sees exactly the records that come after `r`. */
  lemma SeenAfter(s: seq<Record>, r: Record)
    requires Sorted(s)
    ensures forall q :: q in Resume(s, Some(EncodeCursor(r))) <==> q in s && Precedes(r, q)
  {
    CursorRoundTrip(r);
    var m := RetainIsSuffix(s, r);
    forall q | q in s && Precedes(r, q) ensures q in s[m..] {
      var i :| 0 <= i < |s| && s[i] == q;
      assert s[m..][i - m] == q;
    }
  }

  predicate Consecutive(u: Visit, v: Visit, limit: nat) {
    Answered(u, limit) && Answered(v, limit) && u.page.next.Some? && v.cursor == u.page.next
  }

  /** Consecutive pages are separated by the last record of the earlier one. */
  lemma NextPageDescends(u: Visit, v: Visit, limit: nat)
    requires Consecutive(u, v, limit)
    ensures u.page.records != []
    ensures forall y :: y in v.page.records ==> Precedes(LastOf(u), y)
    ensures forall r :: r in v.view && Precedes(LastOf(u), r) ==> r in Resume(v.view, v.cursor)
  {
    VisitFacts(u, limit);
    VisitFacts(v, limit);
    SeenAfter(v.view, LastOf(u));
  }

  lemma {:induction false} PagesDescend(v: seq<Visit>, limit: nat, a: nat, b: nat, x: Record, y: Record)
    requires IsWalk(v, limit) && a < b < |v| && x in v[a].page.records && y in v[b].page.records
    ensures Precedes(x, y)
    decreases b
  {
    hide Compare, Answered, EncodeCursor;
    WalkStep(v, limit, b);
    NextPageDescends(v[b - 1], v[b], limit);
    var last := LastOf(v[b - 1]);
    if a == b - 1 {
      VisitFacts(v[a], limit);
    } else {
      PagesDescend(v, limit, a, b - 1, x, last);
    }
    CompareIsTotalOrder(x, last, y);
  }

  lemma WalkStep(v: seq<Visit>, limit: nat, k: nat)
    requires IsWalk(v, limit) && 0 < k < |v|
    ensures Consecutive(v[k - 1], v[k], limit)
  {
    assert Follows(v, k);
  }

  predicate ReturnedAt(v: seq<Visit>, n: nat, i: nat, r: Record) {
    n < |v| && i < |v[n].page.records| && v[n].page.records[i] == r
  }

  /** No record is returned twice, whatever happened to the spool between the requests. */
  lemma NothingTwice(v: seq<Visit>, limit: nat, r: Record, a: nat, i: nat, b: nat, j: nat)
    requires IsWalk(v, limit) && ReturnedAt(v, a, i, r) && ReturnedAt(v, b, j, r)
    ensures a == b && i == j
  {
    CompareIsTotalOrder(r, r, r);
    if a < b {
      PagesDescend(v, limit, a, b, r, r);
    } else if b < a {
      PagesDescend(v, limit, b, a, r, r);
    } else {
      assert Answered(v[a], limit);
      if i < j { PageHasNoRepeats(v[a], limit, i, j); }
      if j < i { PageHasNoRepeats(v[a], limit, j, i); }
    }
  }

  /** A record that is present at every request is returned before the cursor passes it. */
  lemma {:induction false} ReturnedByThen(v: seq<Visit>, limit: nat, r: Record, k: nat)
    requires IsWalk(v, limit) && k < |v|
    requires forall n :: 0 <= n <= k ==> r in v[n].view
    ensures (exists n, i :: 0 <= n <= k && ReturnedAt(v, n, i, r))
         || (v[k].page.next.Some? && v[k].page.records != [] && Precedes(LastOf(v[k]), r))
  {
    hide Answered, Consecutive, EncodeCursor, Compare;
    if k > 0 {
      ReturnedByThen(v, limit, r, k - 1);
      WalkStep(v, limit, k);
      NextPageDescends(v[k - 1], v[k], limit);
    }
    if k == 0 || Precedes(LastOf(v[k - 1]), r) {
      ShownOrPassed(v[k], limit, r);
      if r in v[k].page.records {
        var i :| 0 <= i < |v[k].page.records| && v[k].page.records[i] == r;
        assert ReturnedAt(v, k, i, r);
      }
    }
  }

  /** A walk that ran to its end returns every record that was there from the first request to the
      last, and returns it exactly once. */
  lemma PersistentRecordsReturnedOnce(v: seq<Visit>, limit: nat, r: Record)
    requires IsWalk(v, limit) && v != [] && v[|v| - 1].page.next == None
    requires forall n :: 0 <= n < |v| ==> r in v[n].view
    ensures exists n: nat, i: nat :: ReturnedAt(v, n, i, r) && ReturnedOnlyAt(v, n, i, r)
  {
    ReturnedByThen(v, limit, r, |v| - 1);
    var n: nat, i: nat :| ReturnedAt(v, n, i, r);
    forall m: nat, j: nat | ReturnedAt(v, m, j, r) ensures m == n && j == i {
      NothingTwice(v, limit, r, n, i, m, j);
    }
  }

  ghost predicate ReturnedOnlyAt(v: seq<Visit>, n: nat, i: nat, r: Record) {
    forall m: nat, j: nat :: ReturnedAt(v, m, j, r) ==> m == n && j == i
  }
}
