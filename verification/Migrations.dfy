/** The updater's migration runner: a state file, a bundle of scripts, and runs that may stop anywhere.
    Names are compared and listed in byte order (the C locale). */
module Migrations {
  import opened Text

  // ----- migration ids -----

  predicate IsIdChar(c: char) { IsDigit(c) || 'a' <= c <= 'z' || c == '-' }

  /** `^[0-9]{4}-[a-z0-9-]+$` */
  predicate IsId(id: string) {
    && |id| >= 6
    && (forall i :: 0 <= i < 4 ==> IsDigit(id[i]))
    && id[4] == '-'
    && forall i :: 5 <= i < |id| ==> IsIdChar(id[i])
  }

  const NO_MIGRATION: string := "0000"

  // ----- the state file -----

  const QUOTE: string := "\""
  const KEY: string := QUOTE + ("lastMigration" + QUOTE)

  function StateLine(id: string): string {
    "{" + (QUOTE + ("schemaVersion" + (QUOTE + (":1," + (KEY + (":" + (QUOTE + (id + (QUOTE + "}")))))))))
  }

  predicate IsSpace(c: char) { c == ' ' || 9 <= c as int <= 13 }

  function SkipSpaces(s: string): string {
    if s != [] && IsSpace(s[0]) then SkipSpaces(s[1..]) else s
  }

  /** The longest start of `s` without a quote or a slash. */
  function Plain(s: string): (p: string)
    ensures p <= s
  {
    if s == [] || s[0] == '"' || s[0] == '/' then [] else [s[0]] + Plain(s[1..])
  }

  predicate LooksLikeId(s: string) {
    |s| >= 5 && (forall i :: 0 <= i < 4 ==> IsDigit(s[i])) && s[4] == '-'
  }

  /** The value, if the key, a colon and a quoted migration id stand at the start of `s`. */
  function ValueHere(s: string): Option<string> {
    if !(KEY <= s) then None
    else
      var a := SkipSpaces(s[|KEY|..]);
      if !(":" <= a) then None
      else
        var b := SkipSpaces(a[1..]);
        if !(QUOTE <= b) then None
        else
          var v := Plain(b[1..]);
          if LooksLikeId(v) && QUOTE <= b[1 + |v|..] then Some(v) else None
  }

  /** `sed` with a leading greedy `.*`: the last place in the line where the pattern matches. */
  function LastValue(s: string): Option<string> {
    if s == [] then None
    else match LastValue(s[1..])
      case Some(v) => Some(v)
      case None => ValueHere(s)
  }

  /** What `read_last_migration` prints for the state file's line, or for no file. */
  function ReadLast(file: Option<string>): string {
    match file
    case None => NO_MIGRATION
    case Some(line) => match LastValue(line) case None => NO_MIGRATION case Some(v) => v
  }

  predicate Spaces(s: string) { forall i :: 0 <= i < |s| ==> s[i] == ' ' || '\t' <= s[i] <= '\r' }

  /** The key, a colon with perhaps white space around it, and in quotes four digits, a dash and anything
      but quotes and slashes. */
  predicate Assigns(s: string, before: string, after: string, v: string, rest: string) {
    && s == KEY + (before + (":" + (after + (QUOTE + (v + (QUOTE + rest))))))
    && Spaces(before) && Spaces(after)
    && |v| >= 5 && (forall i :: 0 <= i < 4 ==> '0' <= v[i] <= '9') && v[4] == '-' && '"' !in v && '/' !in v
  }

  lemma {:induction false} SkipsSpaces(sp: string, t: string)
    requires Spaces(sp) && (t == [] || !IsSpace(t[0]))
    ensures SkipSpaces(sp + t) == t
  {
    if sp == [] {
      assert sp + t == t;
    } else {
      assert (sp + t)[1..] == sp[1..] + t;
      SkipsSpaces(sp[1..], t);
    }
  }

  lemma {:induction false} SkippedIsSpaces(s: string) returns (sp: string)
    ensures Spaces(sp) && s == sp + SkipSpaces(s)
  {
    if s != [] && IsSpace(s[0]) {
      sp := SkippedIsSpaces(s[1..]);
      assert s == [s[0]] + s[1..];
      sp := [s[0]] + sp;
    } else {
      sp := [];
    }
  }

  lemma {:induction false} PlainIsPlain(s: string)
    ensures '"' !in Plain(s) && '/' !in Plain(s)
  {
    if s != [] && s[0] != '"' && s[0] != '/' { PlainIsPlain(s[1..]); }
  }

  lemma ValueRead(s: string, before: string, after: string, v: string, rest: string)
    requires Assigns(s, before, after, v, rest)
    ensures ValueHere(s) == Some(v)
  {
    var tail := QUOTE + rest;
    var b := QUOTE + (v + tail);
    var a := ":" + (after + b);
    assert s[|KEY|..] == before + a;
    SkipsSpaces(before, a);
    assert a[1..] == after + b;
    SkipsSpaces(after, b);
    PlainOf(v, tail);
    assert b[1..] == v + tail && b[1 + |v|..] == tail;
    hide SkipSpaces, Plain;
  }

  lemma ReadParts(s: string) returns (before: string, after: string, rest: string)
    requires ValueHere(s).Some?
    ensures Assigns(s, before, after, ValueHere(s).value, rest)
  {
    var v := ValueHere(s).value;
    before := SkippedIsSpaces(s[|KEY|..]);
    var a := SkipSpaces(s[|KEY|..]);
    after := SkippedIsSpaces(a[1..]);
    var b := SkipSpaces(a[1..]);
    PlainIsPlain(b[1..]);
    rest := b[1 + |v|..][1..];
    hide SkipSpaces, Plain, Spaces;
    assert b == QUOTE + (v + (QUOTE + rest)) by {
      assert b[1..] == v + b[1 + |v|..] && b[1 + |v|..] == QUOTE + rest;
    }
    assert a == ":" + (after + b) && s == KEY + (before + a);
  }

  lemma ReadsExactly(s: string, v: string)
    ensures ValueHere(s) == Some(v) <==> exists before, after, rest :: Assigns(s, before, after, v, rest)
  {
    if ValueHere(s) == Some(v) { var before, after, rest := ReadParts(s); }
    forall before, after, rest | Assigns(s, before, after, v, rest) ensures ValueHere(s) == Some(v) {
      ValueRead(s, before, after, v, rest);
    }
  }

  /** What is read from a line is the value at the last place that has one, or nothing. */
  lemma {:induction false} LastValueExactly(s: string)
    ensures match LastValue(s)
            case None => forall i :: 0 <= i <= |s| ==> ValueHere(s[i..]) == None
            case Some(v) => exists i :: 0 <= i < |s| && ValueHere(s[i..]) == Some(v) && forall j :: i < j <= |s| ==> ValueHere(s[j..]) == None
  {
    assert |KEY| > 0 && ValueHere("") == None;
    hide ValueHere;
    assert s[0..] == s;
    if s != [] {
      var t := s[1..];
      LastValueExactly(t);
      forall j | 0 < j <= |s| ensures s[j..] == t[j - 1..] {}
      if LastValue(t).Some? {
        var i :| 0 <= i < |t| && ValueHere(t[i..]) == LastValue(t) && forall j :: i < j <= |t| ==> ValueHere(t[j..]) == None;
        assert ValueHere(s[i + 1..]) == LastValue(s);
        forall j | i + 1 < j <= |s| ensures ValueHere(s[j..]) == None { assert s[j..] == t[j - 1..]; }
      } else {
        forall i | 0 < i <= |s| ensures ValueHere(s[i..]) == ValueHere(t[i - 1..]) == None {}
        if ValueHere(s).Some? { assert ValueHere(s[0..]) == LastValue(s); }
      }
    }
  }

  lemma {:induction false} SkipPlain(a: string, t: string)
    requires '"' !in a
    ensures LastValue(a + t) == LastValue(t)
  {
    if a == [] {
      assert a + t == t;
    } else {
      assert (a + t)[1..] == a[1..] + t && (a + t)[0] == a[0];
      SkipPlain(a[1..], t);
      NoKeyAt(a + t);
    }
  }

  lemma NoKeyAt(s: string)
    requires s != [] && (s[0] != '"' || |s| < 2 || s[1] != 'l')
    ensures ValueHere(s) == None
  {
    assert KEY[0] == '"' && KEY[1] == 'l';
  }

  lemma QuoteThen(t: string)
    ensures (QUOTE + t)[1..] == t && (QUOTE + t)[0] == '"' && (t != [] ==> (QUOTE + t)[1] == t[0])
  {
  }

  lemma {:induction false} PlainOf(v: string, t: string)
    requires t != [] && t[0] == '"' && forall i :: 0 <= i < |v| ==> v[i] != '"' && v[i] != '/'
    ensures Plain(v + t) == v
  {
    if v == [] {
      assert v + t == t;
    } else {
      assert (v + t)[1..] == v[1..] + t;
      PlainOf(v[1..], t);
    }
  }

  /** Reading back what was written gives the same id. */
  lemma StateRoundTrip(id: string)
    requires IsId(id)
    ensures ReadLast(Some(StateLine(id))) == id
  {
    hide ValueHere, Plain;
    forall i | 0 <= i < |id| ensures id[i] != '"' && id[i] != '/' { assert i >= 5 ==> IsIdChar(id[i]); }
    var close := QUOTE + "}";
    var value := QUOTE + (id + close);
    var pair := KEY + (":" + value);
    QuoteThen("}");
    NoKeyAt(close);
    SkipPlain("}", []);
    assert "}" + [] == "}";
    SkipPlain(id, close);
    QuoteThen(id + close);
    NoKeyAt(value);
    SkipPlain(":", value);
    AfterKey(":" + value);
    ValueInPair(id);
    SkipPlain(":1,", pair);
    QuoteThen(":1," + pair);
    SkipPlain("schemaVersion", QUOTE + (":1," + pair));
    QuoteThen("schemaVersion" + (QUOTE + (":1," + pair)));
    SkipPlain("{", QUOTE + ("schemaVersion" + (QUOTE + (":1," + pair))));
  }

  /** The key itself hides no other place to match. */
  lemma AfterKey(t: string)
    requires t != [] && t[0] != 'l'
    ensures LastValue(KEY + t) == match LastValue(t) case Some(v) => Some(v) case None => ValueHere(KEY + t)
  {
    hide ValueHere;
    var inner := QUOTE + t;
    QuoteThen(t);
    NoKeyAt(inner);
    SkipPlain("lastMigration", inner);
    var s := KEY + t;
    assert s == QUOTE + ("lastMigration" + inner);
    QuoteThen("lastMigration" + inner);
  }

  lemma ValueInPair(id: string)
    requires IsId(id) && forall i :: 0 <= i < |id| ==> id[i] != '"' && id[i] != '/'
    ensures ValueHere(KEY + (":" + (QUOTE + (id + (QUOTE + "}"))))) == Some(id)
  {
    var close := QUOTE + "}";
    var value := QUOTE + (id + close);
    var a := ":" + value;
    var s := KEY + a;
    assert KEY <= s && s[|KEY|..] == a;
    assert SkipSpaces(a) == a && a[1..] == value;
    QuoteThen(id + close);
    assert SkipSpaces(value) == value;
    QuoteThen("}");
    PlainOf(id, close);
    assert (id + close)[|id|..] == close;
    assert value[1 + |id|..] == close;
  }

  // ----- glob order and id order -----

  /** `*.sh` lists file names in order. */
  predicate GlobOrdered(bundle: seq<string>) {
    forall i, j :: 0 <= i < j < |bundle| ==> Less(bundle[i] + ".sh", bundle[j] + ".sh")
  }

  /** The runner compares ids in order. */
  predicate IdOrdered(bundle: seq<string>) {
    forall i, j :: 0 <= i < j < |bundle| ==> Less(bundle[i], bundle[j])
  }

  /** One id is another followed by a dash and more. */
  predicate DashExtends(x: string, y: string) { x + "-" <= y }

  /** No id is another followed by a dash. */
  ghost predicate NoDashPair(ids: seq<string>) {
    forall x, y :: x in ids && y in ids ==> !DashExtends(x, y)
  }

  predicate Alphabet(s: string) { forall i :: 0 <= i < |s| ==> IsIdChar(s[i]) }

  lemma IdAlphabet(id: string)
    requires IsId(id)
    ensures Alphabet(id)
  {
    forall i | 0 <= i < |id| ensures IsIdChar(id[i]) { assert i < 4 ==> IsDigit(id[i]); }
  }

  /** A dash sorts before the dot of `.sh`, everything else an id may contain sorts after it. */
  lemma {:induction false} OrdersAgreeExactly(x: string, y: string)
    requires Alphabet(x) && Alphabet(y) && x != y
    ensures (Less(x + ".sh", y + ".sh") <==> Less(x, y)) <==> !DashExtends(x, y) && !DashExtends(y, x)
  {
    var u, v := x + ".sh", y + ".sh";
    if x == [] {
      assert u == ".sh" && v[0] == y[0] && IsIdChar(y[0]);
      assert ([] + "-")[..1] == "-";
      assert DashExtends(x, y) <==> y[0] == '-';
    } else if y == [] {
      assert v == ".sh" && u[0] == x[0] && IsIdChar(x[0]);
      assert DashExtends(y, x) <==> x[0] == '-';
    } else {
      assert u[1..] == x[1..] + ".sh" && v[1..] == y[1..] + ".sh" && u[0] == x[0] && v[0] == y[0];
      if x[0] == y[0] {
        assert x == [x[0]] + x[1..] && y == [y[0]] + y[1..];
        OrdersAgreeExactly(x[1..], y[1..]);
        ExtendsTail(x, y);
        ExtendsTail(y, x);
      }
    }
  }

  lemma ExtendsTail(x: string, y: string)
    requires x != [] && y != []
    ensures DashExtends(x, y) <==> x[0] == y[0] && DashExtends(x[1..], y[1..])
  {
    var p, q := x + "-", x[1..] + "-";
    assert p == [x[0]] + q;
    if p <= y { assert y[1..][..|q|] == y[..|p|][1..] == q; }
    if x[0] == y[0] && q <= y[1..] { assert y[..|p|] == [y[0]] + y[1..][..|q|]; }
  }

  /** A bundle is listed in id order if and only if no id is a dash-extension of another. */
  lemma BundleOrder(bundle: seq<string>)
    requires GlobOrdered(bundle) && forall id :: id in bundle ==> IsId(id)
    ensures IdOrdered(bundle) <==> NoDashPair(bundle)
  {
    if IdOrdered(bundle) {
      forall x, y | x in bundle && y in bundle ensures !DashExtends(x, y) {
        var i :| 0 <= i < |bundle| && bundle[i] == x;
        var j :| 0 <= j < |bundle| && bundle[j] == y;
        IdAlphabet(x);
        IdAlphabet(y);
        if i == j {
          assert |x + "-"| > |x|;
        } else {
          var lo, hi := if i < j then i else j, if i < j then j else i;
          LessAsymmetric(bundle[lo], bundle[hi]);
          OrdersAgreeExactly(bundle[lo], bundle[hi]);
        }
      }
    }
    if NoDashPair(bundle) {
      forall i, j | 0 <= i < j < |bundle| ensures Less(bundle[i], bundle[j]) {
        LessIrreflexive(bundle[i] + ".sh");
        IdAlphabet(bundle[i]);
        IdAlphabet(bundle[j]);
        OrdersAgreeExactly(bundle[i], bundle[j]);
      }
    }
  }

  function ListInsert(id: string, listed: seq<string>): (r: seq<string>)
    ensures |r| == |listed| + 1
  {
    if listed == [] || Less(id + ".sh", listed[0] + ".sh") then [id] + listed
    else [listed[0]] + ListInsert(id, listed[1..])
  }

  /** The bundle of these migrations as `*.sh` lists it. */
  function Listing(ids: seq<string>): (r: seq<string>)
    ensures |r| == |ids|
  {
    if ids == [] then [] else ListInsert(ids[0], Listing(ids[1..]))
  }

  lemma {:induction false} InsertMembers(id: string, listed: seq<string>)
    ensures forall x :: x in ListInsert(id, listed) <==> x == id || x in listed
  {
    if listed != [] && !Less(id + ".sh", listed[0] + ".sh") {
      InsertMembers(id, listed[1..]);
      assert listed == [listed[0]] + listed[1..];
    }
  }

  lemma FrontOrdered(id: string, rest: seq<string>)
    requires GlobOrdered(rest) && forall x :: x in rest ==> Less(id + ".sh", x + ".sh")
    ensures GlobOrdered([id] + rest)
  {
  }

  lemma {:induction false} InsertOrdered(id: string, listed: seq<string>)
    requires GlobOrdered(listed) && id !in listed
    ensures GlobOrdered(ListInsert(id, listed))
  {
    if listed != [] {
      var head, rest := listed[0], listed[1..];
      assert listed == [head] + rest;
      if Less(id + ".sh", head + ".sh") {
        forall x | x in listed ensures Less(id + ".sh", x + ".sh") {
          var i :| 0 <= i < |listed| && listed[i] == x;
          if i > 0 { LessTransitive(id + ".sh", head + ".sh", x + ".sh"); }
        }
        FrontOrdered(id, listed);
      } else {
        assert id != head && (id + ".sh")[..|id|] == id && (head + ".sh")[..|head|] == head;
        LessTotal(id + ".sh", head + ".sh");
        InsertOrdered(id, rest);
        InsertMembers(id, rest);
        FrontOrdered(head, ListInsert(id, rest));
      }
    }
  }

  lemma {:induction false} ListingFacts(ids: seq<string>)
    requires forall i, j :: 0 <= i < j < |ids| ==> ids[i] != ids[j]
    ensures GlobOrdered(Listing(ids)) && forall x :: x in Listing(ids) <==> x in ids
  {
    if ids != [] {
      ListingFacts(ids[1..]);
      assert ids == [ids[0]] + ids[1..];
      InsertOrdered(ids[0], Listing(ids[1..]));
      InsertMembers(ids[0], Listing(ids[1..]));
    }
  }

  /** Without such a pair, ids in order are listed in order. */
  lemma {:induction false} ListingOfOrdered(ids: seq<string>)
    requires IdOrdered(ids) && NoDashPair(ids) && forall id :: id in ids ==> IsId(id)
    ensures Listing(ids) == ids
  {
    if |ids| > 0 {
      var rest := ids[1..];
      assert forall x :: x in rest ==> x in ids;
      ListingOfOrdered(rest);
      if rest != [] {
        IdAlphabet(ids[0]);
        IdAlphabet(rest[0]);
        assert ids[0] in ids && rest[0] in ids && Less(ids[0], ids[1]);
        LessIrreflexive(ids[0]);
        OrdersAgreeExactly(ids[0], rest[0]);
      }
    }
  }

  // ----- applying a bundle -----

  /** How far a pending script got: it did not complete (missing from the manifest, failed, or the run
      stopped before or during it); it completed but the run stopped before recording it; or both. */
  datatype Fate = NotRun | RanOnly | Recorded

  datatype Event = Ran(id: string) | Wrote(id: string)

  /** What survives a run: the state file; and, as bookkeeping, everything that happened. */
  datatype Progress = Progress(file: Option<string>, events: seq<Event>)

  function RunAndRecord(p: Progress, id: string): Progress {
    Progress(Some(StateLine(id)), p.events + [Ran(id), Wrote(id)])
  }

  /** The loop of `apply_migrations` from script `k` on; true if it reached its end. */
  function ApplyFrom(bundle: seq<string>, fates: seq<Fate>, k: nat, last: string, p: Progress): (Progress, bool)
    requires k <= |bundle| == |fates|
    decreases |bundle| - k
  {
    if k == |bundle| then (p, true)
    else
      var id := bundle[k];
      if !Less(last, id) then ApplyFrom(bundle, fates, k + 1, last, p)
      else
        match fates[k]
        case NotRun => (p, false)
        case RanOnly => (p.(events := p.events + [Ran(id)]), false)
        case Recorded =>
          ApplyFrom(bundle, fates, k + 1, id, RunAndRecord(p, id))
  }

  function Apply(bundle: seq<string>, fates: seq<Fate>, p: Progress): (Progress, bool)
    requires |bundle| == |fates|
  {
    ApplyFrom(bundle, fates, 0, ReadLast(p.file), p)
  }

  /** A script missing from the manifest fails the run before it starts. */
  function FateOf(id: string, manifest: set<string>, outcome: Fate): Fate {
    if id !in manifest then NotRun else outcome
  }

  function Fates(bundle: seq<string>, manifest: set<string>, outcomes: seq<Fate>): (fates: seq<Fate>)
    requires |outcomes| == |bundle|
    ensures |fates| == |bundle|
  {
    seq(|bundle|, i requires 0 <= i < |bundle| => FateOf(bundle[i], manifest, outcomes[i]))
  }

  // ----- what applying a bundle does -----

  /** Script `k` is reached with its id greater than the recorded one and than all listed before it. */
  predicate Pending(bundle: seq<string>, last: string, k: nat)
    requires k < |bundle|
  {
    Less(last, bundle[k]) && forall j :: 0 <= j < k ==> Less(bundle[j], bundle[k])
  }

  /** All pending scripts before `k` were recorded. */
  predicate AllDone(bundle: seq<string>, fates: seq<Fate>, last: string, k: nat)
    requires k <= |bundle| == |fates|
  {
    forall j :: 0 <= j < k && Pending(bundle, last, j) ==> fates[j] == Recorded
  }

  /** `now` is the greatest of the recorded id and the ids listed before `k`. */
  predicate Greatest(bundle: seq<string>, last: string, k: nat, now: string)
    requires k <= |bundle|
  {
    && !Less(now, last) && (forall j :: 0 <= j < k ==> !Less(now, bundle[j]))
    && (now == last || exists j :: 0 <= j < k && now == bundle[j])
  }

  lemma NotPast(w: string, last: string, id: string)
    requires !Less(last, w) && Less(last, id)
    ensures Less(w, id)
  {
    LessTotal(w, last);
    if Less(w, last) { LessTransitive(w, last, id); }
  }

  lemma GreatestPending(bundle: seq<string>, last: string, k: nat, now: string)
    requires k < |bundle| && Greatest(bundle, last, k, now)
    ensures Less(now, bundle[k]) <==> Pending(bundle, last, k)
  {
    if Less(now, bundle[k]) {
      NotPast(last, now, bundle[k]);
      forall j | 0 <= j < k ensures Less(bundle[j], bundle[k]) { NotPast(bundle[j], now, bundle[k]); }
    }
  }

  lemma GreatestNext(bundle: seq<string>, last: string, k: nat, now: string)
    requires k < |bundle| && Greatest(bundle, last, k, now)
    ensures Greatest(bundle, last, k + 1, if Less(now, bundle[k]) then bundle[k] else now)
  {
    var next := if Less(now, bundle[k]) then bundle[k] else now;
    LessIrreflexive(bundle[k]);
    if Less(now, bundle[k]) {
      if Less(next, last) { LessTransitive(now, bundle[k], last); }
      forall j | 0 <= j < k ensures !Less(next, bundle[j]) {
        if Less(next, bundle[j]) { LessTransitive(now, bundle[k], bundle[j]); }
      }
    }
  }

  lemma {:induction false} DoneFrom(bundle: seq<string>, fates: seq<Fate>, last: string, k: nat, now: string, p: Progress)
    requires k <= |bundle| == |fates| && Greatest(bundle, last, k, now) && AllDone(bundle, fates, last, k)
    ensures ApplyFrom(bundle, fates, k, now, p).1 <==> AllDone(bundle, fates, last, |bundle|)
    decreases |bundle| - k
  {
    if k < |bundle| {
      var id := bundle[k];
      GreatestPending(bundle, last, k, now);
      GreatestNext(bundle, last, k, now);
      hide Pending, Greatest;
      if !Less(now, id) {
        DoneFrom(bundle, fates, last, k + 1, now, p);
      } else if fates[k] == Recorded {
        DoneFrom(bundle, fates, last, k + 1, id, RunAndRecord(p, id));
      }
    }
  }

  lemma NothingListed(bundle: seq<string>, fates: seq<Fate>, last: string)
    requires |bundle| == |fates|
    ensures Greatest(bundle, last, 0, last) && AllDone(bundle, fates, last, 0)
  {
    LessIrreflexive(last);
  }

  /** The loop reaches its end exactly when every pending script was recorded. */
  lemma DoneExactly(bundle: seq<string>, fates: seq<Fate>, p: Progress)
    requires |bundle| == |fates|
    ensures Apply(bundle, fates, p).1 <==> AllDone(bundle, fates, ReadLast(p.file), |bundle|)
  {
    NothingListed(bundle, fates, ReadLast(p.file));
    hide Greatest, AllDone;
    DoneFrom(bundle, fates, ReadLast(p.file), 0, ReadLast(p.file), p);
  }

  lemma {:induction false} RanFrom(bundle: seq<string>, fates: seq<Fate>, last: string, k: nat, now: string, p: Progress, i: nat)
    requires k <= |bundle| == |fates| && Greatest(bundle, last, k, now) && AllDone(bundle, fates, last, k) && i < |bundle|
    requires forall x, y :: 0 <= x < y < |bundle| ==> bundle[x] != bundle[y]
    ensures Ran(bundle[i]) in ApplyFrom(bundle, fates, k, now, p).0.events
       <==> Ran(bundle[i]) in p.events
            || (k <= i && Pending(bundle, last, i) && fates[i] != NotRun && AllDone(bundle, fates, last, i))
    decreases |bundle| - k
  {
    if k < |bundle| {
      var id := bundle[k];
      GreatestPending(bundle, last, k, now);
      GreatestNext(bundle, last, k, now);
      hide Pending, Greatest;
      if !Less(now, id) {
        RanFrom(bundle, fates, last, k + 1, now, p, i);
      } else if fates[k] == Recorded {
        RanFrom(bundle, fates, last, k + 1, id, RunAndRecord(p, id), i);
      }
    }
  }

  /** A script runs exactly when it is pending, all pending ones before it were recorded, and it completes. */
  lemma RunsExactly(bundle: seq<string>, fates: seq<Fate>, p: Progress, i: nat)
    requires |bundle| == |fates| && i < |bundle| && GlobOrdered(bundle)
    ensures Ran(bundle[i]) in Apply(bundle, fates, p).0.events
       <==> Ran(bundle[i]) in p.events
            || (Pending(bundle, ReadLast(p.file), i) && fates[i] != NotRun && AllDone(bundle, fates, ReadLast(p.file), i))
  {
    DistinctNames(bundle);
    NothingListed(bundle, fates, ReadLast(p.file));
    hide Greatest, AllDone, Pending;
    RanFrom(bundle, fates, ReadLast(p.file), 0, ReadLast(p.file), p, i);
  }

  // ----- what applying a bundle keeps -----

  /** The ids of a bundle, in order. */
  ghost predicate SortedBundle(all: seq<string>) {
    IdOrdered(all) && forall id :: id in all ==> IsId(id)
  }

  function LastOf(all: seq<string>, r: nat): string
    requires r <= |all|
  {
    if r == 0 then NO_MIGRATION else all[r - 1]
  }

  /** Scripts run in id order, and none runs again once it has been recorded. */
  predicate InOrder(events: seq<Event>) {
    forall i, j :: 0 <= i < j < |events| && events[j].Ran? ==> MayPrecede(events[i], events[j].id)
  }

  predicate MayPrecede(e: Event, id: string) {
    match e
    case Ran(x) => !Less(id, x)
    case Wrote(x) => Less(x, id)
  }

  predicate Among(e: Event, all: seq<string>, r: nat, d: nat)
    requires r <= |all| && d <= |all|
  {
    match e
    case Ran(x) => x in all[..d]
    case Wrote(x) => x in all[..r]
  }

  /** `d` migrations have completed, a prefix of the list, and the first `r` are recorded. */
  ghost predicate Inv(all: seq<string>, p: Progress, r: nat, d: nat) {
    && r <= d <= r + 1 && d <= |all|
    && ReadLast(p.file) == LastOf(all, r)
    && (forall k :: 0 <= k < d ==> Ran(all[k]) in p.events)
    && (forall i :: 0 <= i < |p.events| ==> Among(p.events[i], all, r, d))
    && InOrder(p.events)
  }

  lemma BeforeAll(id: string)
    requires IsId(id)
    ensures Less(NO_MIGRATION, id)
  {
    var z := NO_MIGRATION;
    var a, b := id[..4], id[4..];
    assert id == a + b && z == z + [];
    assert AllDigits(a) && AllDigits(z);
    DigitOrder(z, a);
    ValueOfZeros(4, []);
    assert Zeros(4) + [] == z;
    LessConcat(z, a, [], b);
  }

  lemma OrderedIndex(all: seq<string>, a: nat, b: nat)
    requires IdOrdered(all) && a < |all| && b < |all|
    ensures Less(all[a], all[b]) <==> a < b
  {
    LessIrreflexive(all[a]);
    if b < a { LessAsymmetric(all[b], all[a]); }
  }

  /** Which scripts are pending. */
  lemma PendingExactly(all: seq<string>, r: nat, k: nat)
    requires SortedBundle(all) && r <= |all| && k < |all|
    ensures Less(LastOf(all, r), all[k]) <==> r <= k
  {
    if r == 0 { BeforeAll(all[k]); } else { OrderedIndex(all, r - 1, k); }
  }

  /** A pending script completes. */
  lemma ScriptRuns(all: seq<string>, p: Progress, r: nat, d: nat)
    requires SortedBundle(all) && Inv(all, p, r, d) && r < |all|
    ensures Inv(all, p.(events := p.events + [Ran(all[r])]), r, r + 1)
  {
    var e := p.events + [Ran(all[r])];
    forall i | 0 <= i < |p.events| ensures MayPrecede(e[i], all[r]) && Among(e[i], all, r, r + 1) {
      assert Among(p.events[i], all, r, d);
      var n := if p.events[i].Ran? then d else r;
      var x :| 0 <= x < n && all[..n][x] == p.events[i].id;
      OrderedIndex(all, r, x);
      OrderedIndex(all, x, r);
      assert all[..r + 1][x] == p.events[i].id;
    }
    assert all[..r + 1][r] == all[r];
  }

  /** A completed script is recorded. */
  lemma ScriptRecorded(all: seq<string>, p: Progress, r: nat)
    requires SortedBundle(all) && Inv(all, p, r, r + 1)
    ensures Inv(all, Progress(Some(StateLine(all[r])), p.events + [Wrote(all[r])]), r + 1, r + 1)
  {
    StateRoundTrip(all[r]);
    var e := p.events + [Wrote(all[r])];
    forall i | 0 <= i < |p.events| ensures Among(e[i], all, r + 1, r + 1) {
      assert Among(p.events[i], all, r, r + 1);
      if e[i].Wrote? {
        var x :| 0 <= x < r && all[..r][x] == e[i].id;
        assert all[..r + 1][x] == e[i].id;
      }
    }
    assert all[..r + 1][r] == all[r];
  }

  lemma MoreHappened(p: Progress, id: string)
    ensures p.events <= RunAndRecord(p, id).events
  {
  }

  lemma RunAndRecordKeeps(all: seq<string>, p: Progress, r: nat, d: nat)
    requires SortedBundle(all) && Inv(all, p, r, d) && r < |all|
    ensures Inv(all, RunAndRecord(p, all[r]), r + 1, r + 1) && LastOf(all, r + 1) == all[r]
  {
    var ran := p.(events := p.events + [Ran(all[r])]);
    ScriptRuns(all, p, r, d);
    ScriptRecorded(all, ran, r);
    assert ran.events + [Wrote(all[r])] == RunAndRecord(p, all[r]).events;
  }

  /** What applying the first `n` migrations may do to progress `p`. */
  ghost predicate Applied(all: seq<string>, n: nat, p: Progress, q: Progress, done: bool, r: nat, d: nat, r': nat, d': nat) {
    && Inv(all, q, r', d') && r <= r' && d <= d'
    && (done ==> n <= r')
    && p.events <= q.events
  }

  lemma NothingApplied(all: seq<string>, n: nat, p: Progress, r: nat, d: nat)
    requires Inv(all, p, r, d)
    ensures Applied(all, n, p, p, n <= r, r, d, r, d)
  {
  }

  lemma ThenApplied(all: seq<string>, n: nat, p: Progress, both: Progress, q: Progress, done: bool,
                    r: nat, d: nat, r': nat, d': nat)
    requires p.events <= both.events && d <= r + 1 && Applied(all, n, both, q, done, r + 1, r + 1, r', d')
    ensures Applied(all, n, p, q, done, r, d, r', d')
  {
  }

  lemma OnlyRan(all: seq<string>, n: nat, p: Progress, r: nat, d: nat)
    requires SortedBundle(all) && Inv(all, p, r, d) && r < |all|
    ensures Applied(all, n, p, p.(events := p.events + [Ran(all[r])]), false, r, d, r, r + 1)
  {
    ScriptRuns(all, p, r, d);
  }

  /** Applying a bundle that is listed in id order keeps the invariant wherever it stops, and reaches
      its end only with every migration of the bundle recorded. */
  lemma {:induction false} ApplyInOrder(all: seq<string>, bundle: seq<string>, fates: seq<Fate>, k: nat, last: string,
                                        p: Progress, r: nat, d: nat)
    returns (r': nat, d': nat)
    requires SortedBundle(all) && Inv(all, p, r, d) && bundle <= all && last == LastOf(all, r)
    requires k <= |bundle| == |fates| && k <= r
    ensures var after := ApplyFrom(bundle, fates, k, last, p);
            Applied(all, |bundle|, p, after.0, after.1, r, d, r', d')
    decreases |bundle| - k
  {
    assert r <= d <= r + 1 && d <= |all|;
    hide Inv, Applied, SortedBundle, Less, StateLine, RunAndRecord, LastOf;
    r', d' := r, d;
    if k == |bundle| {
      NothingApplied(all, |bundle|, p, r, d);
      return;
    }
    PendingExactly(all, r, k);
    var id := bundle[k];
    assert id == all[k];
    if r > k {
      r', d' := ApplyInOrder(all, bundle, fates, k + 1, last, p, r, d);
      return;
    }
    match fates[k]
    case NotRun => NothingApplied(all, |bundle|, p, r, d);
    case RanOnly =>
      OnlyRan(all, |bundle|, p, r, d);
      d' := r + 1;
    case Recorded =>
      RunAndRecordKeeps(all, p, r, d);
      var both := RunAndRecord(p, id);
      MoreHappened(p, id);
      r', d' := ApplyInOrder(all, bundle, fates, k + 1, id, both, r + 1, r + 1);
      var rest := ApplyFrom(bundle, fates, k + 1, id, both);
      ThenApplied(all, |bundle|, p, both, rest.0, rest.1, r, d, r', d');
  }

  /** Without a dash pair: applying the bundle the loop lists keeps the invariant wherever it stops, and
      at its end nothing of the bundle is pending. The bundle may be one of an earlier release. */
  lemma ApplyKeepsInvariant(all: seq<string>, bundle: seq<string>, fates: seq<Fate>, p: Progress, r: nat, d: nat)
    returns (r': nat, d': nat)
    requires SortedBundle(all) && bundle <= all && NoDashPair(bundle)
    requires Inv(all, p, r, d) && |fates| == |bundle|
    ensures var after := Apply(Listing(bundle), fates, p);
            Applied(all, |bundle|, p, after.0, after.1, r, d, r', d')
  {
    assert forall id :: id in bundle ==> id in all;
    ListingOfOrdered(bundle);
    r', d' := ApplyInOrder(all, bundle, fates, 0, LastOf(all, r), p, r, d);
  }

  // ----- the whole update -----

  /** Which steps of one update succeed, in the order of `main`; `restored` is whether the old binary
      could be put back. */
  datatype Update = Update(fates: seq<Fate>, prepared: bool, repaired: bool, downloaded: bool,
                           stopped: bool, installed: bool, reloaded: bool, started: bool, restored: bool,
                           newBinary: string)

  datatype Host = Host(progress: Progress, binary: Option<string>)

  datatype Outcome = Updated | Failed

  function UpdateHost(bundle: seq<string>, u: Update, h: Host): (Host, Outcome)
    requires |bundle| == |u.fates|
  {
    if !u.prepared then (h, Failed)
    else
      var (p, done) := Apply(bundle, u.fates, h.progress);
      var migrated := h.(progress := p);
      if !done || !u.repaired || !u.downloaded || !u.stopped || !u.installed then (migrated, Failed)
      else
        var replaced := migrated.(binary := Some(u.newBinary));
        if !u.reloaded then (replaced, Failed)
        else if u.started then (replaced, Updated)
        else if HasBackup(h.binary) && u.restored then (migrated, Failed)
        else (replaced, Failed)
  }

  /** A backup is used only if it is not empty. */
  predicate HasBackup(binary: Option<string>) { binary.Some? && binary.value != [] }

  class Updater {
    var file: Option<string>
    var events: seq<Event>
    var binary: Option<string>

    constructor (binary: Option<string>)
      ensures file == None && events == [] && this.binary == binary
    {
      file, events, this.binary := None, [], binary;
    }

    function State(): Host
      reads this
    {
      Host(Progress(file, events), binary)
    }

    method ApplyMigrations(bundle: seq<string>, manifest: set<string>, outcomes: seq<Fate>) returns (done: bool)
      requires |outcomes| == |bundle|
      modifies this`file, this`events
      ensures (Progress(file, events), done) == Apply(bundle, Fates(bundle, manifest, outcomes), old(State().progress))
      ensures done <==> forall k :: 0 <= k < |bundle| && Pending(bundle, ReadLast(old(file)), k) ==>
                          bundle[k] in manifest && outcomes[k] == Recorded
      ensures old(events) <= events && forall e :: e in events[|old(events)|..] ==> e.id in bundle && e.id in manifest
    {
      DoneExactly(bundle, Fates(bundle, manifest, outcomes), State().progress);
      ghost var fates := Fates(bundle, manifest, outcomes);
      ghost var result := Apply(bundle, fates, Progress(file, events));
      var last := ReadLast(file);
      var k := 0;
      while k < |bundle|
        invariant k <= |bundle|
        invariant ApplyFrom(bundle, fates, k, last, Progress(file, events)) == result
        invariant old(events) <= events && forall e :: e in events[|old(events)|..] ==> e.id in bundle && e.id in manifest
      {
        var id := bundle[k];
        if Less(last, id) {
          if id !in manifest || outcomes[k] == NotRun { return false; }
          ghost var before := events;
          events := events + [Ran(id)];
          if outcomes[k] == RanOnly { return false; }
          file := Some(StateLine(id));
          events := events + [Wrote(id)];
          assert events == before + [Ran(id), Wrote(id)];
          last := id;
        }
        k := k + 1;
      }
      done := true;
    }

    /** The steps of `main`, each of which may end the run. */
    method Run(bundle: seq<string>, manifest: set<string>, u: Update) returns (outcome: Outcome)
      requires |bundle| == |u.fates|
      modifies this
      ensures (State(), outcome) == UpdateHost(bundle, u.(fates := Fates(bundle, manifest, u.fates)), old(State()))
    {
      if !u.prepared { return Failed; }
      var done := ApplyMigrations(bundle, manifest, u.fates);
      if !done || !u.repaired || !u.downloaded { return Failed; }
      var backup := binary;
      if !u.stopped || !u.installed { return Failed; }
      binary := Some(u.newBinary);
      if !u.reloaded { return Failed; }
      if !u.started {
        if HasBackup(backup) && u.restored {
          binary := backup;
        }
        return Failed;
      }
      outcome := Updated;
    }
  }

  /** Everything before the installation, and the installation itself, succeeded. */
  predicate Installs(u: Update) { u.prepared && u.repaired && u.downloaded && u.stopped && u.installed }

  /** The old binary is put back: the new agent did not start, and there is one to restore. */
  predicate PutsBack(u: Update, old_: Option<string>) {
    u.reloaded && !u.started && old_.Some? && old_.value != "" && u.restored
  }

  /** An update succeeds exactly when every step of it did and no pending script of its bundle was left;
      the new binary is left exactly when everything up to the installation succeeded and the old one was
      not put back, and otherwise the old one is. */
  lemma UpdatesExactly(bundle: seq<string>, u: Update, h: Host)
    requires |bundle| == |u.fates|
    ensures var (g, outcome) := UpdateHost(bundle, u, h);
            var applied := AllDone(bundle, u.fates, ReadLast(h.progress.file), |bundle|);
            && (outcome == Updated <==> Installs(u) && applied && u.reloaded && u.started)
            && g.binary == (if Installs(u) && applied && !PutsBack(u, h.binary) then Some(u.newBinary) else h.binary)
            && g.progress == if u.prepared then Apply(bundle, u.fates, h.progress).0 else h.progress
  {
    DoneExactly(bundle, u.fates, h.progress);
    hide AllDone, ApplyFrom;
  }

  /** One update keeps the invariant, and replaces the binary only when no migration of its bundle is
      pending; if the new agent does not start and the old one can be restored, it is. */
  lemma UpdateKeepsInvariant(all: seq<string>, bundle: seq<string>, u: Update, h: Host, r: nat, d: nat)
    returns (r': nat, d': nat)
    requires SortedBundle(all) && bundle <= all && NoDashPair(bundle)
    requires Inv(all, h.progress, r, d) && |u.fates| == |bundle|
    ensures var (g, outcome) := UpdateHost(Listing(bundle), u, h);
            && Inv(all, g.progress, r', d') && r <= r' && d <= d'
            && (g.binary != h.binary || outcome == Updated ==> |bundle| <= r')
            && (outcome == Updated ==> g.binary == Some(u.newBinary))
            && (g.binary == h.binary || g.binary == Some(u.newBinary))
            && (outcome == Failed && u.reloaded && HasBackup(h.binary) && u.restored ==> g.binary == h.binary)
  {
    r', d' := r, d;
    if u.prepared {
      r', d' := ApplyKeepsInvariant(all, bundle, u.fates, h.progress, r, d);
    }
  }

  // ----- when listing order and id order differ -----

  /** Whatever was listed so far is not after the last recorded id. */
  predicate Passed(bundle: seq<string>, k: nat, last: string)
    requires k <= |bundle|
  {
    forall i :: 0 <= i < k ==> !Less(last, bundle[i])
  }

  /** Once a greater id has been listed, a smaller one is skipped and never runs in this update. */
  lemma {:induction false} SkippedForGood(bundle: seq<string>, fates: seq<Fate>, k: nat, last: string, p: Progress, i: nat, j: nat)
    requires k <= |bundle| == |fates| && k <= j && i < j < |bundle| && Less(bundle[j], bundle[i])
    requires Passed(bundle, k, last) && Ran(bundle[j]) !in p.events
    requires forall x, y :: 0 <= x < y < |bundle| ==> bundle[x] != bundle[y]
    ensures Ran(bundle[j]) !in ApplyFrom(bundle, fates, k, last, p).0.events
    decreases |bundle| - k
  {
    var id := bundle[k];
    if k == j {
      if Less(last, id) { LessTransitive(last, id, bundle[i]); }
      OthersOnly(bundle, fates, k + 1, last, p, j);
    } else if !Less(last, id) {
      SkippedForGood(bundle, fates, k + 1, last, p, i, j);
    } else if fates[k] == Recorded {
      forall x | 0 <= x < k + 1 ensures !Less(id, bundle[x]) {
        LessIrreflexive(id);
        if x < k && Less(id, bundle[x]) { LessTransitive(last, id, bundle[x]); }
      }
      SkippedForGood(bundle, fates, k + 1, id, RunAndRecord(p, id), i, j);
    }
  }

  lemma {:induction false} OthersOnly(bundle: seq<string>, fates: seq<Fate>, k: nat, last: string, p: Progress, j: nat)
    requires j < k <= |bundle| == |fates| && Ran(bundle[j]) !in p.events
    requires forall x, y :: 0 <= x < y < |bundle| ==> bundle[x] != bundle[y]
    ensures Ran(bundle[j]) !in ApplyFrom(bundle, fates, k, last, p).0.events
    decreases |bundle| - k
  {
    if k < |bundle| {
      var id := bundle[k];
      assert id != bundle[j];
      if !Less(last, id) {
        OthersOnly(bundle, fates, k + 1, last, p, j);
      } else if fates[k] == Recorded {
        OthersOnly(bundle, fates, k + 1, id, RunAndRecord(p, id), j);
      }
    }
  }

  function AllSucceed(n: nat): seq<Fate> { seq(n, i => Recorded) }

  lemma DistinctNames(bundle: seq<string>)
    requires GlobOrdered(bundle)
    ensures forall x, y :: 0 <= x < y < |bundle| ==> bundle[x] != bundle[y]
  {
    forall x, y | 0 <= x < y < |bundle| ensures bundle[x] != bundle[y] { LessIrreflexive(bundle[x] + ".sh"); }
  }

  /** On a fresh host, with every script succeeding, every migration of a bundle runs if and only if no
      id is another followed by a dash: `*.sh` lists such a pair the wrong way round. */
  lemma BundleCompletesExactly(bundle: seq<string>)
    requires GlobOrdered(bundle) && forall id :: id in bundle ==> IsId(id)
    ensures (forall id :: id in bundle ==> Ran(id) in Apply(bundle, AllSucceed(|bundle|), Progress(None, [])).0.events)
       <==> NoDashPair(bundle)
  {
    var fates, start := AllSucceed(|bundle|), Progress(None, []);
    var q := Apply(bundle, fates, start).0;
    BundleOrder(bundle);
    if IdOrdered(bundle) {
      var r, d := ApplyInOrder(bundle, bundle, fates, 0, NO_MIGRATION, start, 0, 0);
      AllRecordedIsDone(bundle, fates, 0, NO_MIGRATION, start);
      forall id | id in bundle ensures Ran(id) in q.events {
        var k :| 0 <= k < |bundle| && bundle[k] == id;
        assert Ran(bundle[k]) in q.events;
      }
    } else {
      var i, j :| 0 <= i < j < |bundle| && !Less(bundle[i], bundle[j]);
      DistinctNames(bundle);
      LessTotal(bundle[i], bundle[j]);
      SkippedForGood(bundle, fates, 0, NO_MIGRATION, start, i, j);
      assert bundle[j] in bundle;
    }
  }

  lemma {:induction false} AllRecordedIsDone(bundle: seq<string>, fates: seq<Fate>, k: nat, last: string, p: Progress)
    requires k <= |bundle| == |fates| && forall f :: f in fates ==> f == Recorded
    ensures ApplyFrom(bundle, fates, k, last, p).1
    decreases |bundle| - k
  {
    if k < |bundle| {
      assert fates[k] in fates;
      var id := bundle[k];
      if Less(last, id) {
        AllRecordedIsDone(bundle, fates, k + 1, id, RunAndRecord(p, id));
      } else {
        AllRecordedIsDone(bundle, fates, k + 1, last, p);
      }
    }
  }

  /** A pair that goes wrong: the shorter id is listed second and is never run. */
  lemma WrongWayRound()
    ensures var bundle := ["0001-a-b", "0001-a"];
            && GlobOrdered(bundle) && (forall id :: id in bundle ==> IsId(id))
            && Ran("0001-a") !in Apply(bundle, AllSucceed(2), Progress(None, [])).0.events
  {
    hide IsId, GlobOrdered, ApplyFrom, AllSucceed;
    var bundle := ["0001-a-b", "0001-a"];
    var x, y := bundle[0], bundle[1];
    assert x == y + "-b" && x + ".sh" == y + "-b.sh";
    LessIrreflexive(y);
    LessConcat(y, y, "-b.sh", ".sh");
    LessConcat(y, y, [], "-b");
    assert y + [] == y;
    PairOfIds();
    ListedFirst(bundle, x, y);
  }

  lemma PairOfIds()
    ensures IsId("0001-a-b") && IsId("0001-a")
  {
  }

  lemma ListedFirst(bundle: seq<string>, x: string, y: string)
    requires bundle == [x, y] && Less(x + ".sh", y + ".sh") && Less(y, x)
    ensures GlobOrdered(bundle)
    ensures Ran(y) !in Apply(bundle, AllSucceed(2), Progress(None, [])).0.events
  {
    DistinctNames(bundle);
    SkippedForGood(bundle, AllSucceed(2), 0, NO_MIGRATION, Progress(None, []), 0, 1);
  }
}
