/** Log records, their one-line serialised form, and how a file of lines is read back. */
module LogRecords {
  import opened Text

  newtype byte = x: int | 0 <= x < 256

  const NEWLINE: byte := 10
  const CARRIAGE_RETURN: byte := 13

  datatype Record = Record(
    id: string,
    timestamp: U64,
    scope: string,
    resourceId: Option<string>,
    jobId: Option<string>,
    attemptId: Option<string>,
    stream: Option<string>,
    level: string,
    message: string)

  /** The JSON library: what it does to a record, and to a line that may not be one. */
  datatype Codec = Codec(ser: Record -> seq<byte>, de: seq<byte> -> Option<Record>) {
    ghost predicate Valid() {
      forall r: Record :: WritesOneLine(r) && de(ser(r)) == Some(r)
    }

    ghost predicate WritesOneLine(r: Record) {
      var line := ser(r);
      NEWLINE !in line && (line == [] || line[|line| - 1] != CARRIAGE_RETURN)
    }

    /** The bytes one append writes. */
    function Payload(r: Record): seq<byte> { ser(r) + [NEWLINE] }

    /** A file made of whole record lines. */
    function Render(records: seq<Record>): seq<byte> {
      if records == [] then [] else Payload(records[0]) + Render(records[1..])
    }

    /** What a query decodes from a file's bytes; lines that are not records are skipped. */
    function Parse(content: seq<byte>): seq<Record> { DecodeAll(Lines(content)) }

    function DecodeAll(lines: seq<seq<byte>>): seq<Record> {
      if lines == [] then []
      else match de(lines[0])
        case Some(r) => [r] + DecodeAll(lines[1..])
        case None => DecodeAll(lines[1..])
    }

    lemma {:induction false} ParseOfRender(records: seq<Record>)
      requires Valid()
      ensures Parse(Render(records)) == records
    {
      if records != [] {
        var r, rest := records[0], Render(records[1..]);
        assert WritesOneLine(r);
        LinesOfLine(ser(r), rest);
        assert Render(records) == ser(r) + [NEWLINE] + rest;
        ParseOfRender(records[1..]);
      }
    }

    /** Lines that are no records are passed over, wherever they stand. */
    lemma {:induction false} DecodedExactly(lines: seq<seq<byte>>, r: Record)
      ensures r in DecodeAll(lines) <==> exists i :: 0 <= i < |lines| && de(lines[i]) == Some(r)
    {
      if lines != [] {
        DecodedExactly(lines[1..], r);
        if i :| 0 <= i < |lines| && de(lines[i]) == Some(r) { assert i > 0 ==> lines[1..][i - 1] == lines[i]; }
        if j :| 0 <= j < |lines[1..]| && de(lines[1..][j]) == Some(r) { assert lines[j + 1] == lines[1..][j]; }
      }
    }

    lemma {:induction false} RenderSnoc(records: seq<Record>, r: Record)
      ensures Render(records + [r]) == Render(records) + Payload(r)
    {
      if records == [] {
        assert records + [r] == [r];
        assert Payload(r) + [] == Payload(r);
      } else {
        assert (records + [r])[1..] == records[1..] + [r];
        RenderSnoc(records[1..], r);
      }
    }
  }

  function FirstNewline(content: seq<byte>): (p: nat)
    ensures p <= |content|
    ensures NEWLINE !in content[..p]
    ensures p < |content| ==> content[p] == NEWLINE
  {
    if content == [] || content[0] == NEWLINE then 0
    else
      var p := FirstNewline(content[1..]);
      assert content[..p + 1] == [content[0]] + content[1..][..p];
      p + 1
  }

  /** `BufRead::lines`: cut at newlines, dropping the newline and a carriage return before it. */
  function Lines(content: seq<byte>): seq<seq<byte>>
    decreases |content|
  {
    if content == [] then []
    else
      var p := FirstNewline(content);
      if p == |content| then [content]
      else [WithoutReturn(content[..p])] + Lines(content[p + 1..])
  }

  function WithoutReturn(line: seq<byte>): seq<byte> {
    if line != [] && line[|line| - 1] == CARRIAGE_RETURN then line[..|line| - 1] else line
  }

  lemma LinesOfLine(line: seq<byte>, rest: seq<byte>)
    requires NEWLINE !in line
    ensures Lines(line + [NEWLINE] + rest) == [WithoutReturn(line)] + Lines(rest)
  {
    var content := line + [NEWLINE] + rest;
    var p := FirstNewline(content);
    assert content[|line|] == NEWLINE;
    assert forall i :: 0 <= i < |line| ==> content[i] == line[i];
    assert p == |line|;
    assert content[..p] == line && content[p + 1..] == rest;
  }

  /** Lines put together, each with its newline. */
  function Ended(lines: seq<seq<byte>>): seq<byte> {
    if lines == [] then [] else lines[0] + [NEWLINE] + Ended(lines[1..])
  }

  /** A line read is the line written, less one carriage return at its end. */
  predicate ReadAs(written: seq<byte>, read: seq<byte>) {
    if written != [] && written[|written| - 1] == CARRIAGE_RETURN then written == read + [CARRIAGE_RETURN] else written == read
  }

  lemma LinesOfRest(rest: seq<byte>)
    requires NEWLINE !in rest
    ensures Lines(rest) == if rest == [] then [] else [rest]
  {
  }

  /** Of any bytes, cut at newlines, every line is read, and the rest too unless it is empty. */
  lemma {:induction false} LinesExactly(lines: seq<seq<byte>>, rest: seq<byte>)
    requires NEWLINE !in rest && forall i :: 0 <= i < |lines| ==> NEWLINE !in lines[i]
    ensures var read := Lines(Ended(lines) + rest);
            && |read| == |lines| + (if rest == [] then 0 else 1)
            && (forall i :: 0 <= i < |lines| ==> ReadAs(lines[i], read[i]))
            && (rest != [] ==> read[|lines|] == rest)
  {
    hide Lines;
    if lines == [] {
      LinesOfRest(rest);
      assert Ended(lines) + rest == rest;
    } else {
      var more := Ended(lines[1..]) + rest;
      assert Ended(lines) + rest == lines[0] + [NEWLINE] + more;
      LinesOfLine(lines[0], more);
      LinesExactly(lines[1..], rest);
    }
  }
}
