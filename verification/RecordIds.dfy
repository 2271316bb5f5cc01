/** Record ids: a process-wide atomic counter, printed so that string order is numeric order. */
module RecordIds {
  import opened Text

  /** The value the counter moves to when a caller reads clock `now` (nanoseconds, capped at u64). */
  function Advance(previous: U64, now: U64): (next: U64)
    ensures next >= previous && next >= now
    ensures next == previous <==> previous == U64_MAX
  {
    var bumped := if previous == U64_MAX then U64_MAX else previous + 1;
    if now > bumped then now else bumped
  }

  /** It moves no further than it must: past the number printed, and to the clock. */
  lemma AdvanceIsLeast(previous: U64, now: U64, n: U64)
    requires n >= now && n > previous
    ensures Advance(previous, now) <= n
  {
  }

  /** Twenty digits of counter, a dash, ten digits of process id. */
  function Format(counter: U64, pid: U32): string
  {
    Padded(counter, 20) + "-" + Padded(pid, 10)
  }

  /** The id generator. One call is one atomic `fetch_update`, so any interleaving of callers is a
      sequence of calls. */
  class Source {
    var last: U64
    const pid: U32

    constructor (pid: U32)
      ensures last == 0 && this.pid == pid
    {
      last := 0;
      this.pid := pid;
    }

    /** `fetch_update` yields the value before the update: that is the number printed. */
    method Next(now: U64) returns (id: string)
      modifies this
      ensures id == Format(old(last), pid)
      ensures last == Advance(old(last), now)
    {
      var previous := last;
      last := Advance(previous, now);
      id := Format(previous, pid);
    }
  }

  /** The counters printed by successive calls whose clock readings are `clocks`. */
  function Issued(start: U64, clocks: seq<U64>): (r: seq<U64>)
    ensures |r| == |clocks|
    decreases clocks
  {
    if clocks == [] then [] else [start] + Issued(Advance(start, clocks[0]), clocks[1..])
  }

  /** The counter after those calls. */
  function After(start: U64, clocks: seq<U64>): U64
    decreases clocks
  {
    if clocks == [] then start else After(Advance(start, clocks[0]), clocks[1..])
  }

  lemma {:induction false} IssuedBounds(start: U64, clocks: seq<U64>)
    ensures forall i :: 0 <= i < |clocks| ==> start <= Issued(start, clocks)[i] <= After(start, clocks)
    ensures start <= After(start, clocks)
    decreases clocks
  {
    if clocks != [] {
      IssuedBounds(Advance(start, clocks[0]), clocks[1..]);
    }
  }

  lemma {:induction false} CountersIncrease(start: U64, clocks: seq<U64>, i: nat, j: nat)
    requires i < j < |clocks|
    ensures var r := Issued(start, clocks);
            if r[i] == U64_MAX then r[j] == U64_MAX else r[i] < r[j]
    decreases clocks
  {
    var next := Advance(start, clocks[0]);
    if i == 0 {
      IssuedBounds(next, clocks[1..]);
    } else {
      CountersIncrease(next, clocks[1..], i - 1, j - 1);
    }
  }

  lemma Widths(n: U64, p: U32)
    ensures |Padded(n, 20)| == 20 && Value(Padded(n, 20)) == n
    ensures |Padded(p, 10)| == 10 && Value(Padded(p, 10)) == p
  {
    assert Pow10(10) == 10_000_000_000;
    assert Pow10(20) == Pow10(10) * 10_000_000_000;
    PaddedFacts(n, 20);
    PaddedFacts(p, 10);
  }

  /** String comparison of ids is comparison of (counter, process id). */
  lemma FormatOrder(a: U64, p: U32, b: U64, q: U32)
    ensures Less(Format(a, p), Format(b, q)) <==> a < b || (a == b && p < q)
    ensures Format(a, p) == Format(b, q) <==> a == b && p == q
    ensures |Format(a, p)| == 31
  {
    hide Padded, Less, Decimal, Value;
    Widths(a, p);
    Widths(b, q);
    var x, y, u, v := Padded(a, 20), Padded(b, 20), Padded(p, 10), Padded(q, 10);
    DigitOrder(x, y);
    DigitOrder(u, v);
    assert Format(a, p) == x + ("-" + u) && Format(b, q) == y + ("-" + v);
    LessConcat(x, y, "-" + u, "-" + v);
    LessIrreflexive("-");
    LessConcat("-", "-", u, v);
    assert Format(a, p)[..20] == x && Format(b, q)[..20] == y;
    assert Format(a, p)[21..] == u && Format(b, q)[21..] == v;
  }

  /** An id is twenty digits that read as the counter, a dash, and ten that read as the process id. */
  lemma FormatText(counter: U64, pid: U32)
    ensures var id := Format(counter, pid);
            && |id| == 31 && id[20] == '-'
            && AllDigits(id[..20]) && Value(id[..20]) == counter
            && AllDigits(id[21..]) && Value(id[21..]) == pid
  {
    hide Padded, Value;
    Widths(counter, pid);
    var x, u := Padded(counter, 20), Padded(pid, 10);
    assert Format(counter, pid) == x + ("-" + u);
    assert Format(counter, pid)[..20] == x && Format(counter, pid)[21..] == u;
  }

  /** Whatever the clock says and whoever calls, a later id is strictly greater as a string exactly
      when the earlier one was issued below the u64 maximum; from there on ids repeat. */
  lemma IdsStrictlyIncrease(start: U64, clocks: seq<U64>, pid: U32, i: nat, j: nat)
    requires i < j < |clocks|
    ensures var r := Issued(start, clocks);
            && (Less(Format(r[i], pid), Format(r[j], pid)) <==> r[i] < U64_MAX)
            && (Format(r[i], pid) == Format(r[j], pid) <==> r[i] == U64_MAX)
  {
    CountersIncrease(start, clocks, i, j);
    var r := Issued(start, clocks);
    FormatOrder(r[i], pid, r[j], pid);
  }

  /** An id shows the clock reading of the call before it, so the first id of a process is
      number zero at any hour, and a later one is at least every earlier reading. */
  lemma IdsLagTheClock(clocks: seq<U64>, j: nat)
    requires j < |clocks|
    ensures Issued(0, clocks)[0] == 0
    ensures forall i :: 0 <= i < j ==> Issued(0, clocks)[j] >= clocks[i]
  {
    LagFrom(0, clocks, j);
  }

  lemma {:induction false} LagFrom(start: U64, clocks: seq<U64>, j: nat)
    requires j < |clocks|
    ensures forall i :: 0 <= i < j ==> Issued(start, clocks)[j] >= clocks[i]
    decreases clocks
  {
    if j > 0 {
      var next := Advance(start, clocks[0]);
      LagFrom(next, clocks[1..], j - 1);
      IssuedBounds(next, clocks[1..]);
      assert forall i :: 1 <= i < j ==> clocks[i] == clocks[1..][i - 1];
    }
  }
}
