/** Cutting byte streams into lines and segments, however the bytes arrive. */
module Streams {
  import opened Text
  import opened LogRecords

  type Separator = byte -> bool

  const IsNewline: Separator := (b: byte) => b == NEWLINE
  const IsLineBreak: Separator := (b: byte) => b == NEWLINE || b == CARRIAGE_RETURN

  // ----- what a stream means -----

  /** The segments ended by a separator. */
  function Complete(sep: Separator, s: seq<byte>): seq<seq<byte>> {
    if s == [] then []
    else
      var k := |s| - 1;
      if sep(s[k]) then Complete(sep, s[..k]) + [Tail(sep, s[..k])] else Complete(sep, s[..k])
  }

  /** What follows the last separator. */
  function Tail(sep: Separator, s: seq<byte>): seq<byte> {
    if s == [] || sep(s[|s| - 1]) then [] else Tail(sep, s[..|s| - 1]) + [s[|s| - 1]]
  }

  /** A segment and the separator that ended it. */
  datatype Piece = Piece(segment: seq<byte>, end: byte)

  predicate FreeOf(sep: Separator, s: seq<byte>) { forall i :: 0 <= i < |s| ==> !sep(s[i]) }

  predicate Pieces(sep: Separator, ps: seq<Piece>) {
    forall i :: 0 <= i < |ps| ==> FreeOf(sep, ps[i].segment) && sep(ps[i].end)
  }

  function Rejoin(ps: seq<Piece>): seq<byte> {
    if ps == [] then [] else var k := |ps| - 1; Rejoin(ps[..k]) + ps[k].segment + [ps[k].end]
  }

  function Segments(ps: seq<Piece>): seq<seq<byte>> {
    if ps == [] then [] else var k := |ps| - 1; Segments(ps[..k]) + [ps[k].segment]
  }

  lemma {:induction false} AddFree(sep: Separator, s: seq<byte>, t: seq<byte>)
    requires FreeOf(sep, t)
    ensures Complete(sep, s + t) == Complete(sep, s) && Tail(sep, s + t) == Tail(sep, s) + t
  {
    if t == [] {
      assert s + t == s;
    } else {
      var k := |t| - 1;
      assert (s + t)[..|s + t| - 1] == s + t[..k];
      AddFree(sep, s, t[..k]);
      assert t == t[..k] + [t[k]];
    }
  }

  /** The only way to write a stream as separator-free segments, their separators and a
      separator-free rest is the one `Complete` and `Tail` give. */
  lemma {:induction false} CutIsUnique(sep: Separator, ps: seq<Piece>, rest: seq<byte>)
    requires Pieces(sep, ps) && FreeOf(sep, rest)
    ensures Complete(sep, Rejoin(ps) + rest) == Segments(ps) && Tail(sep, Rejoin(ps) + rest) == rest
  {
    AddFree(sep, Rejoin(ps), rest);
    if ps != [] {
      var k := |ps| - 1;
      CutIsUnique(sep, ps[..k], ps[k].segment);
      var before := Rejoin(ps[..k]) + ps[k].segment;
      assert Rejoin(ps)[..|Rejoin(ps)| - 1] == before;
    }
  }

  lemma RejoinSnoc(ps: seq<Piece>, p: Piece)
    ensures Rejoin(ps + [p]) == Rejoin(ps) + p.segment + [p.end]
  {
    assert (ps + [p])[..|ps|] == ps;
  }

  /** And every stream can be written so. */
  lemma {:induction false} CutExists(sep: Separator, s: seq<byte>) returns (ps: seq<Piece>, rest: seq<byte>)
    ensures Pieces(sep, ps) && FreeOf(sep, rest) && s == Rejoin(ps) + rest
  {
    if s == [] {
      ps, rest := [], [];
    } else {
      var k := |s| - 1;
      var qs, t := CutExists(sep, s[..k]);
      hide Rejoin;
      assert s == s[..k] + [s[k]];
      if sep(s[k]) {
        ps, rest := qs + [Piece(t, s[k])], [];
        RejoinSnoc(qs, Piece(t, s[k]));
        assert Rejoin(ps) + [] == Rejoin(ps);
      } else {
        ps, rest := qs, t + [s[k]];
        Assoc(Rejoin(qs), t, [s[k]]);
      }
    }
  }

  /** Cutting a stream in two loses nothing: the tail of the first part is carried over. */
  lemma {:induction false} CutInTwo(sep: Separator, a: seq<byte>, b: seq<byte>)
    ensures Complete(sep, a + b) == Complete(sep, a) + Complete(sep, Tail(sep, a) + b)
    ensures Tail(sep, a + b) == Tail(sep, Tail(sep, a) + b)
  {
    if b == [] {
      assert a + b == a && Tail(sep, a) + b == Tail(sep, a);
      TailIsFree(sep, a);
      AddFree(sep, [], Tail(sep, a));
      assert [] + Tail(sep, a) == Tail(sep, a);
    } else {
      var k := |b| - 1;
      CutInTwo(sep, a, b[..k]);
      assert (a + b)[..|a + b| - 1] == a + b[..k];
      var t := Tail(sep, a);
      assert (t + b)[..|t + b| - 1] == t + b[..k];
    }
  }

  lemma {:induction false} TailIsFree(sep: Separator, s: seq<byte>)
    ensures FreeOf(sep, Tail(sep, s))
  {
    if s != [] && !sep(s[|s| - 1]) { TailIsFree(sep, s[..|s| - 1]); }
  }

  // ----- the tracing writer -----

  /** One call of `append_agent`. */
  datatype LogCall = LogCall(level: string, message: string)

  function Level(line: string): string {
    if Contains(line, " ERROR ") then "error"
    else if Contains(line, " WARN ") then "warn"
    else if Contains(line, " DEBUG ") then "debug"
    else "info"
  }

  /** What a completed line leads to; `lossy` is `String::from_utf8_lossy`. */
  function Emit(lossy: seq<byte> -> string, line: seq<byte>): seq<LogCall> {
    var text := Trim(IsWhitespace, lossy(line));
    if text == [] then [] else [LogCall(Level(text), text)]
  }

  /** The level is named in the line between blanks, the gravest first. */
  lemma LevelExactly(line: string)
    ensures var level := Level(line);
            && (level == "error" <==> exists before, after :: line == before + " ERROR " + after)
            && (level == "warn" <==> !Contains(line, " ERROR ") && exists before, after :: line == before + " WARN " + after)
            && (level == "debug" <==> && !Contains(line, " ERROR ") && !Contains(line, " WARN ")
                                      && exists before, after :: line == before + " DEBUG " + after)
            && level in {"error", "warn", "debug", "info"}
  {
    ContainsExactly(line, " ERROR ");
    ContainsExactly(line, " WARN ");
    ContainsExactly(line, " DEBUG ");
    assert "error"[0] == 'e' && "warn"[0] == 'w' && "debug"[0] == 'd' && "info"[0] == 'i';
  }

  /** A line of white space logs nothing; any other logs once, its text from the first to the last
      character that is no white space. */
  lemma EmitExactly(lossy: seq<byte> -> string, line: seq<byte>)
    ensures var text, calls := lossy(line), Emit(lossy, line);
            if forall i :: 0 <= i < |text| ==> IsWhitespace(text[i]) then calls == []
            else
              && |calls| == 1 && calls[0].level == Level(calls[0].message)
              && exists lo, hi ::
                   && 0 <= lo < hi <= |text| && calls[0].message == text[lo..hi]
                   && !IsWhitespace(text[lo]) && !IsWhitespace(text[hi - 1])
                   && forall i :: 0 <= i < lo || hi <= i < |text| ==> IsWhitespace(text[i])
  {
    var text := lossy(line);
    hide IsWhitespace, Level;
    var lo, hi := TrimIsSlice(IsWhitespace, text);
    if lo < hi { assert !IsWhitespace(text[lo]); }
  }

  function EmitAll(lossy: seq<byte> -> string, lines: seq<seq<byte>>): seq<LogCall> {
    if lines == [] then [] else Emit(lossy, lines[0]) + EmitAll(lossy, lines[1..])
  }

  lemma {:induction false} EmitAppend(lossy: seq<byte> -> string, a: seq<seq<byte>>, b: seq<seq<byte>>)
    ensures EmitAll(lossy, a + b) == EmitAll(lossy, a) + EmitAll(lossy, b)
  {
    if a == [] {
      assert a + b == b;
    } else {
      assert (a + b)[1..] == a[1..] + b;
      EmitAppend(lossy, a[1..], b);
    }
  }

  /** The first line of a stream, cut off at its newline. */
  lemma LineEnded(line: seq<byte>)
    requires FreeOf(IsNewline, line)
    ensures Complete(IsNewline, line + [NEWLINE]) == [line] && Tail(IsNewline, line + [NEWLINE]) == []
  {
    assert (line + [NEWLINE])[..|line|] == line;
    AddFree(IsNewline, [], line);
    assert [] + line == line;
  }

  lemma AroundIndex(s: seq<byte>, p: nat)
    requires p < |s|
    ensures s == s[..p] + [s[p]] + s[p + 1..]
  {
  }

  lemma AtNewline(s: seq<byte>, p: nat)
    requires p == FirstNewline(s) && p < |s|
    ensures s == s[..p] + [NEWLINE] + s[p + 1..] && FreeOf(IsNewline, s[..p])
  {
    AroundIndex(s, p);
  }

  lemma FirstLine(s: seq<byte>, p: nat)
    requires p == FirstNewline(s) && p < |s|
    ensures Complete(IsNewline, s) == [s[..p]] + Complete(IsNewline, s[p + 1..])
    ensures Tail(IsNewline, s) == Tail(IsNewline, s[p + 1..])
  {
    hide Complete, Tail;
    var first, rest := s[..p] + [NEWLINE], s[p + 1..];
    AtNewline(s, p);
    LineEnded(s[..p]);
    hide FirstNewline, FreeOf;
    CutInTwo(IsNewline, first, rest);
    assert [] + rest == rest;
  }

  class AgentLogWriter {
    var pending: seq<byte>
    var stderr: seq<byte>
    var calls: seq<LogCall>
    const lossy: seq<byte> -> string

    constructor (lossy: seq<byte> -> string)
      ensures pending == [] && stderr == [] && calls == [] && this.lossy == lossy
    {
      pending, stderr, calls := [], [], [];
      this.lossy := lossy;
    }

    /** `Write::write`; nothing is kept of bytes that stderr refused. */
    method WriteBytes(bytes: seq<byte>, stderrAccepts: bool) returns (written: Option<nat>)
      modifies this
      ensures written == if stderrAccepts then Some(|bytes|) else None
      ensures !stderrAccepts ==> pending == old(pending) && stderr == old(stderr) && calls == old(calls)
      ensures stderrAccepts ==>
                && stderr == old(stderr) + bytes
                && pending == Tail(IsNewline, old(pending) + bytes)
                && calls == old(calls) + EmitAll(lossy, Complete(IsNewline, old(pending) + bytes))
    {
      if !stderrAccepts { return None; }
      stderr := stderr + bytes;
      pending := pending + bytes;
      DrainLines();
      return Some(|bytes|);
    }

    /** The loop body after the line is cut off: trim, classify, log. */
    method LogLine(bytes: seq<byte>)
      modifies this`calls
      ensures calls == old(calls) + Emit(lossy, bytes)
    {
      var line := Trim(IsWhitespace, lossy(bytes));
      if line != [] {
        calls := calls + [LogCall(Level(line), line)];
      }
    }

    /** The loop: take the first completed line off `pending` while there is one. */
    method DrainLines()
      modifies this`pending, this`calls
      ensures pending == Tail(IsNewline, old(pending))
      ensures calls == old(calls) + EmitAll(lossy, Complete(IsNewline, old(pending)))
    {
      ghost var total := EmitAll(lossy, Complete(IsNewline, pending));
      ghost var left := total;
      var p := FirstNewline(pending);
      while p < |pending|
        invariant p == FirstNewline(pending)
        invariant Tail(IsNewline, pending) == Tail(IsNewline, old(pending))
        invariant left == EmitAll(lossy, Complete(IsNewline, pending))
        invariant calls + left == old(calls) + total
        decreases |pending|
      {
        FirstLineEmitted(lossy, pending, p);
        ghost var before := calls;
        LogLine(pending[..p]);
        pending := pending[p + 1..];
        left := EmitAll(lossy, Complete(IsNewline, pending));
        Assoc(before, calls[|before|..], left);
        p := FirstNewline(pending);
      }
      NoLines(pending);
    }
  }

  lemma FirstLineEmitted(lossy: seq<byte> -> string, s: seq<byte>, p: nat)
    requires p == FirstNewline(s) && p < |s|
    ensures EmitAll(lossy, Complete(IsNewline, s))
         == Emit(lossy, s[..p]) + EmitAll(lossy, Complete(IsNewline, s[p + 1..]))
    ensures Tail(IsNewline, s) == Tail(IsNewline, s[p + 1..])
  {
    FirstLine(s, p);
    var rest := Complete(IsNewline, s[p + 1..]);
    assert ([s[..p]] + rest)[1..] == rest;
  }

  lemma NoLines(s: seq<byte>)
    requires FirstNewline(s) == |s|
    ensures Complete(IsNewline, s) == [] && Tail(IsNewline, s) == s
  {
    AddFree(IsNewline, [], s);
    assert [] + s == s == s[..|s|];
  }

  /** Calls made and bytes left pending after writing `chunks` one after another. */
  function WriteAll(lossy: seq<byte> -> string, pending: seq<byte>, chunks: seq<seq<byte>>): (seq<LogCall>, seq<byte>)
    decreases chunks
  {
    if chunks == [] then ([], pending)
    else
      var all := pending + chunks[0];
      var (calls, rest) := WriteAll(lossy, Tail(IsNewline, all), chunks[1..]);
      (EmitAll(lossy, Complete(IsNewline, all)) + calls, rest)
  }

  /** Chunk boundaries do not matter: any way of cutting the same bytes logs the same lines and
      leaves the same newline-free bytes pending. */
  lemma {:induction false} ChunkingIsInvisible(lossy: seq<byte> -> string, pending: seq<byte>, chunks: seq<seq<byte>>)
    requires FreeOf(IsNewline, pending)
    ensures WriteAll(lossy, pending, chunks)
         == (EmitAll(lossy, Complete(IsNewline, pending + Flatten(chunks))), Tail(IsNewline, pending + Flatten(chunks)))
    decreases chunks
  {
    if chunks == [] {
      AddFree(IsNewline, [], pending);
      assert [] + pending == pending == pending + Flatten(chunks);
    } else {
      var all, rest := pending + chunks[0], Flatten(chunks[1..]);
      var carried := Tail(IsNewline, all);
      TailIsFree(IsNewline, all);
      ChunkingIsInvisible(lossy, carried, chunks[1..]);
      CutInTwo(IsNewline, all, rest);
      EmitAppend(lossy, Complete(IsNewline, all), Complete(IsNewline, carried + rest));
      Assoc(pending, chunks[0], rest);
      assert pending + Flatten(chunks) == all + rest;
    }
  }

  // ----- the container output streamer -----

  datatype Read = Bytes(data: seq<byte>) | Failed

  function NonEmpty(segments: seq<seq<byte>>): seq<seq<byte>> {
    if segments == [] then []
    else
      var k := |segments| - 1;
      NonEmpty(segments[..k]) + if segments[k] == [] then [] else [segments[k]]
  }

  /** The bytes delivered before end of file, a failed read or the end of `input`. */
  function Delivered(input: seq<Read>): seq<byte> {
    if input == [] || input[0].Failed? || input[0].data == [] then [] else input[0].data + Delivered(input[1..])
  }

  /** The stream ends in a failed read, not in end of file. */
  predicate Breaks(input: seq<Read>) {
    input != [] && (input[0].Failed? || (input[0].data != [] && Breaks(input[1..])))
  }

  lemma {:induction false} NonEmptySnoc(segments: seq<seq<byte>>, x: seq<byte>)
    ensures NonEmpty(segments + [x]) == NonEmpty(segments) + if x == [] then [] else [x]
  {
    assert (segments + [x])[..|segments|] == segments;
  }

  /** Empty segments, and only those, are left out, wherever they stand. */
  lemma {:induction false} NonEmptyExactly(a: seq<seq<byte>>, x: seq<byte>, b: seq<seq<byte>>)
    ensures NonEmpty(a + [x] + b) == NonEmpty(a) + (if x == [] then [] else [x]) + NonEmpty(b)
  {
    if b == [] {
      assert a + [x] + b == a + [x];
      NonEmptySnoc(a, x);
      assert NonEmpty(a + [x]) + NonEmpty(b) == NonEmpty(a + [x]);
    } else {
      var k := |b| - 1;
      NonEmptyExactly(a, x, b[..k]);
      assert a + [x] + b == (a + [x] + b[..k]) + [b[k]];
      NonEmptySnoc(a + [x] + b[..k], b[k]);
      Assoc(NonEmpty(a) + (if x == [] then [] else [x]), NonEmpty(b[..k]), if b[k] == [] then [] else [b[k]]);
    }
  }

  /** The bytes of some reads, one after another. */
  function Joined(parts: seq<Read>): seq<byte>
    requires forall i :: 0 <= i < |parts| ==> parts[i].Bytes?
  {
    if parts == [] then [] else parts[0].data + Joined(parts[1..])
  }

  /** What is delivered are the non-empty reads up to the first that is empty or fails; it breaks exactly
      if that one fails. */
  lemma {:induction false} DeliveredExactly(input: seq<Read>) returns (n: nat)
    ensures n <= |input| && (forall i :: 0 <= i < n ==> input[i].Bytes? && input[i].data != [])
    ensures n < |input| ==> input[n].Failed? || input[n].data == []
    ensures Delivered(input) == Joined(input[..n]) && (Breaks(input) <==> n < |input| && input[n].Failed?)
  {
    if input == [] || input[0].Failed? || input[0].data == [] {
      n := 0;
    } else {
      var k := DeliveredExactly(input[1..]);
      n := k + 1;
      assert input[..n][1..] == input[1..][..k];
      assert forall i :: 1 <= i < n ==> input[i] == input[1..][i - 1];
    }
  }

  /** The state of the streamer after reading `buffer`. */
  predicate InStep(buffer: seq<byte>, pending: seq<byte>, emitted: seq<seq<byte>>) {
    pending == Tail(IsLineBreak, buffer) && emitted == NonEmpty(Complete(IsLineBreak, buffer))
  }

  lemma TakeByte(buffer: seq<byte>, b: byte)
    ensures NonEmpty(Complete(IsLineBreak, buffer + [b]))
         == NonEmpty(Complete(IsLineBreak, buffer)) +
            if IsLineBreak(b) && Tail(IsLineBreak, buffer) != [] then [Tail(IsLineBreak, buffer)] else []
    ensures Tail(IsLineBreak, buffer + [b]) == if IsLineBreak(b) then [] else Tail(IsLineBreak, buffer) + [b]
  {
    assert (buffer + [b])[..|buffer|] == buffer;
    NonEmptySnoc(Complete(IsLineBreak, buffer), Tail(IsLineBreak, buffer));
  }

  /** The inner loop, over the bytes of one read. */
  method TakeChunk(buffer: seq<byte>, pending: seq<byte>, emitted: seq<seq<byte>>, chunk: seq<byte>)
    returns (buffer': seq<byte>, pending': seq<byte>, emitted': seq<seq<byte>>)
    requires InStep(buffer, pending, emitted)
    ensures buffer' == buffer + chunk && InStep(buffer', pending', emitted')
  {
    hide Complete, Tail, NonEmpty;
    buffer', pending', emitted' := buffer, pending, emitted;
    var k := 0;
    while k < |chunk|
      invariant k <= |chunk|
      invariant buffer' == buffer + chunk[..k]
      invariant InStep(buffer', pending', emitted')
    {
      var b := chunk[k];
      TakeByte(buffer', b);
      buffer' := buffer' + [b];
      if IsLineBreak(b) {
        if pending' != [] {
          emitted' := emitted' + [pending'];
        }
        pending' := [];
      } else {
        pending' := pending' + [b];
      }
      k := k + 1;
    }
  }

  lemma DeliveredStep(input: seq<Read>, n: nat, buffer: seq<byte>)
    requires n < |input| && buffer + Delivered(input[n..]) == Delivered(input)
    ensures input[n].Failed? ==> Breaks(input[n..]) && Delivered(input) == buffer
    ensures input[n].Bytes? && input[n].data == [] ==> !Breaks(input[n..]) && Delivered(input) == buffer
    ensures input[n].Bytes? && input[n].data != [] ==>
              && Breaks(input[n..]) == Breaks(input[n + 1..])
              && (buffer + input[n].data) + Delivered(input[n + 1..]) == Delivered(input)
  {
    assert input[n..][1..] == input[n + 1..];
    if input[n].Bytes? {
      Assoc(buffer, input[n].data, Delivered(input[n + 1..]));
    }
  }

  lemma NoTail(buffer: seq<byte>, pending: seq<byte>, emitted: seq<seq<byte>>)
    requires InStep(buffer, pending, emitted)
    ensures emitted == NonEmpty(Complete(IsLineBreak, buffer) + [])
  {
    assert Complete(IsLineBreak, buffer) + [] == Complete(IsLineBreak, buffer);
  }

  lemma LastTail(buffer: seq<byte>, pending: seq<byte>, emitted: seq<seq<byte>>)
    requires InStep(buffer, pending, emitted)
    ensures NonEmpty(Complete(IsLineBreak, buffer) + [Tail(IsLineBreak, buffer)])
         == if pending == [] then emitted else emitted + [pending]
  {
    NonEmptySnoc(Complete(IsLineBreak, buffer), pending);
  }

  /** Bytes are collected one by one; a segment is emitted at each line break and at end of file. */
  method StreamAndCollect(input: seq<Read>) returns (output: Option<seq<byte>>, emitted: seq<seq<byte>>)
    ensures output == if Breaks(input) then None else Some(Delivered(input))
    ensures emitted == NonEmpty(Complete(IsLineBreak, Delivered(input))
                                + if Breaks(input) then [] else [Tail(IsLineBreak, Delivered(input))])
  {
    assert InStep([], [], []);
    hide Complete, Tail, NonEmpty, InStep;
    var buffer: seq<byte>, pending: seq<byte> := [], [];
    emitted := [];
    var n := 0;
    while n < |input|
      invariant n <= |input|
      invariant buffer + Delivered(input[n..]) == Delivered(input)
      invariant Breaks(input[n..]) == Breaks(input)
      invariant InStep(buffer, pending, emitted)
    {
      DeliveredStep(input, n, buffer);
      if input[n].Failed? {
        NoTail(buffer, pending, emitted);
        return None, emitted;
      }
      var chunk := input[n].data;
      if chunk == [] { break; }
      buffer, pending, emitted := TakeChunk(buffer, pending, emitted, chunk);
      n := n + 1;
    }
    assert Delivered(input) == buffer;
    LastTail(buffer, pending, emitted);
    if pending != [] {
      emitted := emitted + [pending];
    }
    output := Some(buffer);
  }
}
