/** Reading nameservers from resolv.conf and writing them into a guest. */
module ResolvConf {
  import opened Text
  import opened ShellWords

  const HEADER: string := "#" + " Generated by statix-agent" + " for job container DNS"
  const OPTIONS: string := "options timeout:2 attempts:2"

  // ----- reading -----

  /** `str::lines`: cut at newlines, dropping a carriage return before each; no empty last line. */
  function Lines(s: string): seq<string>
    decreases |s|
  {
    if s == [] then []
    else
      match IndexOf(s, '\n')
      case None => [s]
      case Some(p) => [WithoutReturn(s[..p])] + Lines(s[p + 1..])
  }

  function WithoutReturn(line: string): string {
    if line != [] && line[|line| - 1] == '\r' then line[..|line| - 1] else line
  }

  /** The text before the first `#`. */
  function BeforeComment(line: string): string {
    match IndexOf(line, '#') case None => line case Some(p) => line[..p]
  }

  /** `split_whitespace().next()` */
  function FirstWord(s: string): Option<string> {
    if s == [] then None
    else if IsWhitespace(s[0]) then FirstWord(s[1..])
    else Some(TakeWord(s))
  }

  function TakeWord(s: string): (w: string)
    ensures w <= s
  {
    if s == [] || IsWhitespace(s[0]) then [] else [s[0]] + TakeWord(s[1..])
  }

  /** The address on one line, if it is a nameserver line. The keyword need not be followed by a blank. */
  function LineServer(line: string): Option<string> {
    var t := Trim(IsWhitespace, BeforeComment(line));
    if "nameserver" <= t then FirstWord(t[10..]) else None
  }

  function Servers(lines: seq<string>, unusable: string -> bool): seq<string> {
    if lines == [] then []
    else
      (match LineServer(lines[0])
       case Some(v) => if unusable(v) then [] else [v]
       case None => []) + Servers(lines[1..], unusable)
  }

  /** Keep first occurrences. */
  function Dedupe(s: seq<string>): seq<string> {
    if s == [] then []
    else
      var k := |s| - 1;
      var before := Dedupe(s[..k]);
      if s[k] in before then before else before + [s[k]]
  }

  method DedupeNameservers(nameservers: seq<string>) returns (deduped: seq<string>)
    ensures deduped == Dedupe(nameservers)
  {
    deduped := [];
    var k := 0;
    while k < |nameservers|
      invariant k <= |nameservers| && deduped == Dedupe(nameservers[..k])
    {
      assert nameservers[..k + 1][..k] == nameservers[..k];
      if nameservers[k] !in deduped {
        deduped := deduped + [nameservers[k]];
      }
      k := k + 1;
    }
    assert nameservers[..k] == nameservers;
  }

  /** `unusable` is the standard library's test for loopback and unspecified addresses. */
  function Parse(contents: string, unusable: string -> bool): seq<string> {
    Dedupe(Servers(Lines(contents), unusable))
  }

  // ----- deduplication -----

  predicate NoRepeats(s: seq<string>) { forall i, j :: 0 <= i < j < |s| ==> s[i] != s[j] }

  function FirstIndex(s: seq<string>, v: string): (i: nat)
    requires v in s
    ensures i < |s| && s[i] == v && v !in s[..i]
  {
    if s[0] == v then 0
    else
      var i := FirstIndex(s[1..], v);
      assert s[..i + 1] == [s[0]] + s[1..][..i];
      i + 1
  }

  /** The result has the same members, each once, in the order of their first occurrences. */
  lemma {:induction false} DedupeFacts(s: seq<string>)
    ensures NoRepeats(Dedupe(s))
    ensures forall v :: v in Dedupe(s) <==> v in s
    ensures forall i, j :: 0 <= i < j < |Dedupe(s)| ==>
              Dedupe(s)[i] in s && Dedupe(s)[j] in s && FirstIndex(s, Dedupe(s)[i]) < FirstIndex(s, Dedupe(s)[j])
  {
    hide FirstIndex;
    if s != [] {
      var k := |s| - 1;
      var init, d := s[..k], Dedupe(s[..k]);
      DedupeFacts(init);
      assert s == init + [s[k]];
      forall v | v in init ensures FirstIndex(s, v) == FirstIndex(init, v) { SameFirstIndex(init, s[k], v); }
      if s[k] !in d {
        forall i | 0 <= i < |d| ensures FirstIndex(s, d[i]) < FirstIndex(s, s[k]) {
          assert d[i] in init;
          assert FirstIndex(s, d[i]) == FirstIndex(init, d[i]) < k;
          FreshIsLast(init, s[k]);
        }
      }
    }
  }

  lemma SameFirstIndex(init: seq<string>, x: string, v: string)
    requires v in init
    ensures FirstIndex(init + [x], v) == FirstIndex(init, v)
  {
    var s := init + [x];
    if init[0] != v {
      assert s[1..] == init[1..] + [x];
      SameFirstIndex(init[1..], x, v);
    }
  }

  lemma FreshIsLast(init: seq<string>, x: string)
    requires x !in init
    ensures FirstIndex(init + [x], x) == |init|
  {
    if init != [] {
      assert (init + [x])[1..] == init[1..] + [x];
      FreshIsLast(init[1..], x);
    }
  }

  lemma {:induction false} DedupeOfDistinct(s: seq<string>)
    requires NoRepeats(s)
    ensures Dedupe(s) == s
  {
    if s != [] {
      var k := |s| - 1;
      DedupeOfDistinct(s[..k]);
      assert s == s[..k] + [s[k]];
    }
  }

  // ----- which lines name a server -----

  predicate White(s: string) { forall i :: 0 <= i < |s| ==> IsWhitespace(s[i]) }

  predicate WordChars(v: string) { v != [] && forall i :: 0 <= i < |v| ==> !IsWhitespace(v[i]) && v[i] != '#' }

  /** A word ends here: the line does, or white space or a comment follows. */
  predicate WordOver(rest: string) { rest == [] || rest[0] == '#' || IsWhitespace(rest[0]) }

  /** The line is blanks, the keyword, perhaps blanks, and the server's word. */
  predicate NamesServer(line: string, before: string, gap: string, v: string, rest: string) {
    && line == before + ("nameserver" + (gap + (v + rest)))
    && White(before) && White(gap) && WordChars(v) && WordOver(rest)
  }

  lemma {:induction false} TakeWordStops(v: string, rest: string)
    requires (forall i :: 0 <= i < |v| ==> !IsWhitespace(v[i])) && (rest == [] || IsWhitespace(rest[0]))
    ensures TakeWord(v + rest) == v
  {
    if v == [] {
      assert v + rest == rest;
    } else {
      assert (v + rest)[1..] == v[1..] + rest;
      TakeWordStops(v[1..], rest);
    }
  }

  lemma {:induction false} FirstWordIs(gap: string, v: string, rest: string)
    requires White(gap) && WordChars(v) && (rest == [] || IsWhitespace(rest[0]))
    ensures FirstWord(gap + (v + rest)) == Some(v)
  {
    var s := gap + (v + rest);
    if gap == [] {
      assert s == v + rest;
      TakeWordStops(v, rest);
    } else {
      assert s[1..] == gap[1..] + (v + rest);
      FirstWordIs(gap[1..], v, rest);
    }
  }

  lemma {:induction false} WordTaken(s: string)
    ensures var v := TakeWord(s); v <= s && (|v| < |s| ==> IsWhitespace(s[|v|])) && forall i :: 0 <= i < |v| ==> !IsWhitespace(v[i])
  {
    if s != [] && !IsWhitespace(s[0]) { WordTaken(s[1..]); }
  }

  lemma {:induction false} FirstWordParts(s: string) returns (gap: string, rest: string)
    requires FirstWord(s).Some?
    ensures s == gap + (FirstWord(s).value + rest) && White(gap) && (rest == [] || IsWhitespace(rest[0]))
    ensures FirstWord(s).value != [] && forall i :: 0 <= i < |FirstWord(s).value| ==> !IsWhitespace(FirstWord(s).value[i])
  {
    if IsWhitespace(s[0]) {
      gap, rest := FirstWordParts(s[1..]);
      assert s == [s[0]] + s[1..];
      gap := [s[0]] + gap;
    } else {
      WordTaken(s);
      gap, rest := [], s[|TakeWord(s)|..];
      assert s == TakeWord(s) + rest;
    }
  }

  lemma CommentStarts(line: string)
    ensures var c := BeforeComment(line); c <= line && '#' !in c && (|c| < |line| ==> line[|c|] == '#')
  {
  }

  lemma UpToComment(a: string, rest: string) returns (left: string)
    requires '#' !in a && WordOver(rest)
    ensures BeforeComment(a + rest) == a + left && (left == [] || IsWhitespace(left[0]))
  {
    var line := a + rest;
    CommentStarts(line);
    var c := BeforeComment(line);
    assert forall i :: 0 <= i < |a| ==> line[i] == a[i] && a[i] in a;
    assert |c| >= |a|;
    left := c[|a|..];
    assert c[..|a|] == line[..|a|] == a;
    assert left != [] ==> left[0] == c[|a|] == line[|a|] == rest[0] && left[0] in c;
  }

  lemma KeywordTrimmed(before: string, kw: string, body: string, v: string, left: string)
    requires White(before) && kw != [] && !IsWhitespace(kw[0]) && WordChars(v)
    ensures exists k :: 0 <= k <= |left| && Trim(IsWhitespace, before + (kw + (body + (v + left)))) == kw + (body + (v + left[..k]))
  {
    hide IsWhitespace;
    var s := before + (kw + (body + (v + left)));
    var lo, hi := TrimIsSlice(IsWhitespace, s);
    var end := |before| + |kw| + |body| + |v|;
    assert s[|before|] == kw[0] && s[end - 1] == v[|v| - 1];
    assert forall i :: 0 <= i < |before| ==> s[i] == before[i];
    assert lo == |before| && end <= hi;
    assert s[lo..hi] == kw + (body + (v + left[..hi - end]));
  }

  lemma ServerNamed(line: string, before: string, gap: string, v: string, rest: string)
    requires NamesServer(line, before, gap, v, rest)
    ensures LineServer(line) == Some(v)
  {
    var kw := "nameserver";
    assert '#' !in kw && kw[0] == 'n';
    var a := before + (kw + (gap + v));
    assert line == a + rest;
    assert '#' !in before && '#' !in gap && '#' !in v;
    var left := UpToComment(a, rest);
    assert a + left == before + (kw + (gap + (v + left)));
    KeywordTrimmed(before, kw, gap, v, left);
    var k :| 0 <= k <= |left| && Trim(IsWhitespace, a + left) == kw + (gap + (v + left[..k]));
    var t := kw + (gap + (v + left[..k]));
    assert |kw| == 10 && t[10..] == gap + (v + left[..k]) && kw <= t;
    FirstWordIs(gap, v, left[..k]);
  }

  lemma Rejoined(line: string, c: string, lo: nat, hi: nat, kw: string, gap: string, v: string, left: string)
    requires c <= line && lo <= hi <= |c| && c[lo..hi] == kw + (gap + (v + left))
    ensures line == c[..lo] + (kw + (gap + (v + (left + (c[hi..] + line[|c|..])))))
    ensures forall i :: 0 <= i < |v| ==> v[i] == c[lo + |kw| + |gap| + i]
  {
    var t := c[lo..hi];
    assert line == c[..lo] + (t + (c[hi..] + line[|c|..]));
    forall i | 0 <= i < |v| ensures v[i] == c[lo + |kw| + |gap| + i] { assert v[i] == t[|kw| + |gap| + i]; }
  }

  lemma OverAfter(left: string, after: string, comment: string)
    requires (left == [] || IsWhitespace(left[0])) && (after == [] || IsWhitespace(after[0])) && (comment == [] || comment[0] == '#')
    ensures WordOver(left + (after + comment))
  {
    hide IsWhitespace;
    if left == [] { assert left + (after + comment) == after + comment; }
    if left == [] && after == [] { assert after + comment == comment; }
  }

  lemma NamedParts(line: string) returns (before: string, gap: string, rest: string)
    requires LineServer(line).Some?
    ensures NamesServer(line, before, gap, LineServer(line).value, rest)
  {
    hide IsWhitespace, FirstWord, BeforeComment, Trim, WordOver;
    var v, c := LineServer(line).value, BeforeComment(line);
    CommentStarts(line);
    var lo, hi := TrimIsSlice(IsWhitespace, c);
    var t := c[lo..hi];
    var left;
    gap, left := FirstWordParts(t[10..]);
    before := c[..lo];
    rest := left + (c[hi..] + line[|c|..]);
    assert t == "nameserver" + (gap + (v + left)) by { assert t[..10] == "nameserver"; }
    Rejoined(line, c, lo, hi, "nameserver", gap, v, left);
    OverAfter(left, c[hi..], line[|c|..]);
  }

  /** A line names a server exactly when it has, after blanks, the keyword `nameserver`, and after it,
      blanks or not, a word that ends at a blank, a comment or the end of the line. */
  lemma LineServerExactly(line: string, v: string)
    ensures LineServer(line) == Some(v) <==> exists before, gap, rest :: NamesServer(line, before, gap, v, rest)
  {
    if LineServer(line) == Some(v) { var before, gap, rest := NamedParts(line); }
    forall before, gap, rest | NamesServer(line, before, gap, v, rest) ensures LineServer(line) == Some(v) {
      ServerNamed(line, before, gap, v, rest);
    }
  }

  lemma {:induction false} ServersAre(lines: seq<string>, unusable: string -> bool, v: string)
    ensures v in Servers(lines, unusable)
       <==> !unusable(v) && exists i :: 0 <= i < |lines| && LineServer(lines[i]) == Some(v)
  {
    hide LineServer;
    if lines != [] {
      var rest := lines[1..];
      ServersAre(rest, unusable, v);
      if i :| 0 <= i < |lines| && LineServer(lines[i]) == Some(v) { assert i > 0 ==> rest[i - 1] == lines[i]; }
      if j :| 0 <= j < |rest| && LineServer(rest[j]) == Some(v) { assert lines[j + 1] == rest[j]; }
    }
  }

  /** Parsing finds exactly the usable servers the text's lines name. */
  lemma ParsedExactly(contents: string, unusable: string -> bool, v: string)
    ensures v in Parse(contents, unusable)
       <==> !unusable(v) && exists i, before, gap, rest ::
              0 <= i < |Lines(contents)| && NamesServer(Lines(contents)[i], before, gap, v, rest)
  {
    hide LineServer, NamesServer, Servers, Dedupe;
    var lines := Lines(contents);
    DedupeFacts(Servers(lines, unusable));
    ServersAre(lines, unusable, v);
    forall line ensures LineServer(line) == Some(v) <==> exists before, gap, rest :: NamesServer(line, before, gap, v, rest) {
      LineServerExactly(line, v);
    }
  }

  // ----- writing -----

  function NameserverLines(nameservers: seq<string>): seq<string> {
    if nameservers == [] then [] else ["nameserver " + nameservers[0]] + NameserverLines(nameservers[1..])
  }

  /** Everything after the header line. */
  function Body(nameservers: seq<string>): seq<string> { NameserverLines(nameservers) + [OPTIONS] }

  /** `printf '%s\n'` of its arguments. */
  function Printed(lines: seq<string>): string {
    if lines == [] then [] else lines[0] + "\n" + Printed(lines[1..])
  }

  const FORMAT: string := "%s\\n"
  const RESOLV_CONF: string := "/etc/resolv.conf"

  const QUOTED_FORMAT: string := "'" + FORMAT + "'"

  /** `printf '%s\n'` and its operands. */
  function PrintfText(lines: seq<string>): string { "printf" + " " + QUOTED_FORMAT + " " + Join(lines) }

  const REDIRECT: string := " " + ">" + " " + RESOLV_CONF

  const REMOVE: seq<Clause> := [Clause(["rm", "-f", RESOLV_CONF], AndIf)]

  /** The command when no default gateway is wanted. */
  function DirectCommand(nameservers: seq<string>): string {
    PrefixText(REMOVE) + (PrintfText([HEADER] + Body(nameservers)) + REDIRECT)
  }

  /** Assigns what the guest's route lookup prints to a variable. */
  const LOOKUP: string := "gateway=$(ip -4 route show default 2>/dev/null | awk '{print $3; exit}'); "

  /** Removes the file, opens a group whose output will go there, and prints the header. */
  const OPEN: string := PrefixText(REMOVE) + ("{" + " " + PrintfText([HEADER]))

  /** Ends the command before it, and prints a nameserver line if the variable is not empty. */
  const CHOICE: string := "; if [ -n \"$gateway\" ]; then printf " + QUOTED_FORMAT + " \"nameserver $gateway\"; fi; "

  const HEAD: string := LOOKUP + OPEN + CHOICE

  /** Ends the command before it and the group. */
  const CLOSE: string := ";" + " " + "}" + REDIRECT

  /** The command that puts the guest's default gateway first. */
  function GatewayCommand(nameservers: seq<string>): string { HEAD + (PrintfText(Body(nameservers)) + CLOSE) }

  /** The nameserver line for the gateway, if there is one. */
  function GatewayLines(gateway: string): seq<string> { if gateway == [] then [] else ["nameserver " + gateway] }

  /** The file the guest should be left with; `gateway` is what its route lookup printed, perhaps nothing. */
  function FileText(nameservers: seq<string>, gateway: string): string {
    Printed([HEADER] + (GatewayLines(gateway) + Body(nameservers)))
  }

  lemma {:induction false} NameserverLinesAre(ns: seq<string>)
    ensures |NameserverLines(ns)| == |ns| && forall i :: 0 <= i < |ns| ==> NameserverLines(ns)[i] == "nameserver " + ns[i]
  {
    if ns != [] { NameserverLinesAre(ns[1..]); }
  }

  /** The file line by line: the header, the gateway if there is one, every server in order, the options. */
  lemma FileTextExactly(ns: seq<string>, gateway: string) returns (lines: seq<string>)
    ensures FileText(ns, gateway) == Printed(lines)
    ensures var k := if gateway == [] then 1 else 2;
            && |lines| == k + |ns| + 1
            && lines[0] == "#" + " Generated by statix-agent" + " for job container DNS"
            && (gateway != [] ==> lines[1] == "nameserver " + gateway)
            && (forall i :: 0 <= i < |ns| ==> lines[k + i] == "nameserver " + ns[i])
            && lines[k + |ns|] == "options timeout:2 attempts:2"
  {
    NameserverLinesAre(ns);
    hide NameserverLines, Printed;
    lines := [HEADER] + (GatewayLines(gateway) + Body(ns));
  }

  // ----- the shell sees the lines -----

  lemma {:induction false} WordsAppend(a: seq<string>, b: seq<string>)
    ensures Words(a + b) == Words(a) + Words(b)
  {
    if a == [] {
      assert a + b == b;
    } else {
      assert (a + b)[1..] == a[1..] + b;
      WordsAppend(a[1..], b);
    }
  }

  lemma {:induction false} NoQuotesToReplace(s: string)
    requires '\'' !in s
    ensures ReplaceQuotes(s) == s
  {
    if s != [] {
      NoQuotesToReplace(s[1..]);
      assert s == [s[0]] + s[1..];
    }
  }

  lemma QuotedFormat()
    ensures Escape(FORMAT) == QUOTED_FORMAT
  {
    assert FORMAT[2] == '\\' && '\'' !in FORMAT;
    NoQuotesToReplace(FORMAT);
    hide ReplaceQuotes;
  }

  function PrintfItems(lines: seq<string>): seq<Item> {
    [Arg("printf", None)] + [Blank] + [Arg("", Some(FORMAT))] + [Blank] + Args(lines)
  }

  function PrintfTokens(lines: seq<string>): seq<Token> { [Word("printf")] + [Word(FORMAT)] + Words(lines) }

  lemma PrintfScript(lines: seq<string>)
    requires lines != []
    ensures Script(PrintfItems(lines), PrintfText(lines), PrintfTokens(lines)) && WordsAtEnds(PrintfItems(lines))
  {
    OneLiteral("printf");
    OneArg(FORMAT);
    QuotedFormat();
    JoinIsArgs(lines);
    hide Script, Escape;
    var a := [Arg("printf", None)] + [Blank] + [Arg("", Some(FORMAT))];
    ComposeWords([Arg("printf", None)], "printf", [Word("printf")], [Arg("", Some(FORMAT))], QUOTED_FORMAT, [Word(FORMAT)]);
    ComposeWords(a, "printf" + " " + QUOTED_FORMAT, [Word("printf")] + [Word(FORMAT)], Args(lines), Join(lines), Words(lines));
  }

  lemma OneBlank()
    ensures Script([Blank], " ", [])
  {
    Single(Blank);
  }

  lemma OneOp(symbol: string)
    requires ItemOk(Op(symbol))
    ensures Script([Op(symbol)], symbol, [Operator(symbol)])
  {
    Single(Op(symbol));
  }

  lemma RedirectScript()
    ensures Script([Blank] + [Op(">")] + [Blank] + [Arg(RESOLV_CONF, None)], REDIRECT, [Operator(">"), Word(RESOLV_CONF)])
  {
    OneBlank();
    OneOp(">");
    assert AllPlain(RESOLV_CONF);
    OneLiteral(RESOLV_CONF);
    var op := [Operator(">")];
    Compose([Blank], " ", [], [Op(">")], ">", op);
    assert [] + op == op && op + [] == op;
    Compose([Blank] + [Op(">")], " " + ">", op, [Blank], " ", []);
    Compose([Blank] + [Op(">")] + [Blank], " " + ">" + " ", op, [Arg(RESOLV_CONF, None)], RESOLV_CONF, [Word(RESOLV_CONF)]);
  }

  lemma RemoveIsPlain()
    ensures PlainClauses(REMOVE)
  {
    assert PlainWords(["rm", "-f", RESOLV_CONF]);
  }

  /** The direct command removes the file and prints exactly the header and body lines into it. */
  lemma DirectCommandPrintsLines(nameservers: seq<string>)
    ensures Scan(DirectCommand(nameservers), Between)
         == Some(PrefixTokens(REMOVE) + (PrintfTokens([HEADER] + Body(nameservers)) + [Operator(">"), Word(RESOLV_CONF)]))
  {
    PrintfThenRedirect([HEADER] + Body(nameservers));
  }

  lemma PrintfThenRedirect(lines: seq<string>)
    requires lines != []
    ensures Scan(PrefixText(REMOVE) + (PrintfText(lines) + REDIRECT), Between)
         == Some(PrefixTokens(REMOVE) + (PrintfTokens(lines) + [Operator(">"), Word(RESOLV_CONF)]))
  {
    PrintfScript(lines);
    RedirectScript();
    RemoveIsPlain();
    var a, b := PrintfItems(lines), [Blank] + [Op(">")] + [Blank] + [Arg(RESOLV_CONF, None)];
    assert b[0] == Blank && b[|b| - 1] == Arg(RESOLV_CONF, None);
    Compose(a, PrintfText(lines), PrintfTokens(lines), b, REDIRECT, [Operator(">"), Word(RESOLV_CONF)]);
    assert WordsAtEnds(a + b);
    PrefixThenWords(REMOVE, a + b, PrintfText(lines) + REDIRECT, PrintfTokens(lines) + [Operator(">"), Word(RESOLV_CONF)]);
  }

  lemma BraceIsPlain()
    ensures AllPlain("{") && AllPlain("}")
  {
  }

  /** The opening of the gateway command: the removal, the group, and a `printf` of the header. */
  lemma OpeningScans()
    ensures Scan(OPEN, Between) == Some(PrefixTokens(REMOVE) + ([Word("{")] + PrintfTokens([HEADER])))
  {
    RemoveIsPlain();
    BraceIsPlain();
    OneLiteral("{");
    PrintfScript([HEADER]);
    hide Script, PrintfItems, PrintfText, PrintfTokens, PrefixText, PrefixTokens;
    var b := [Arg("{", None)];
    ComposeWords(b, "{", [Word("{")], PrintfItems([HEADER]), PrintfText([HEADER]), PrintfTokens([HEADER]));
    PrefixThenWords(REMOVE, b + [Blank] + PrintfItems([HEADER]), "{" + " " + PrintfText([HEADER]), [Word("{")] + PrintfTokens([HEADER]));
  }

  const CLOSE_TOKENS: seq<Token> := [Operator(";")] + [Word("}")] + [Operator(">"), Word(RESOLV_CONF)]

  lemma CloseScript() returns (items: seq<Item>)
    ensures Script(items, CLOSE, CLOSE_TOKENS) && items != [] && items[0] == Op(";")
  {
    OneOp(";");
    OneBlank();
    BraceIsPlain();
    OneLiteral("}");
    RedirectScript();
    hide Script;
    var semi := [Operator(";")];
    var to := [Blank] + [Op(">")] + [Blank] + [Arg(RESOLV_CONF, None)];
    Compose([Op(";")], ";", semi, [Blank], " ", []);
    assert semi + [] == semi;
    Compose([Op(";")] + [Blank], ";" + " ", semi, [Arg("}", None)], "}", [Word("}")]);
    items := [Op(";")] + [Blank] + [Arg("}", None)];
    Compose(items, ";" + " " + "}", semi + [Word("}")], to, REDIRECT, [Operator(">"), Word(RESOLV_CONF)]);
    items := items + to;
  }

  /** The end of the gateway command, read from where its fixed head ends: a `printf` of exactly the
      body lines, the end of the group, and the file its output goes to. */
  lemma GatewayCommandScans(nameservers: seq<string>)
    ensures HEAD <= GatewayCommand(nameservers)
    ensures Scan(GatewayCommand(nameservers)[|HEAD|..], Between) == Some(PrintfTokens(Body(nameservers)) + CLOSE_TOKENS)
  {
    var lines := Body(nameservers);
    PrintfScript(lines);
    var close := CloseScript();
    hide Script, PrintfItems, PrintfText, PrintfTokens, Body;
    Compose(PrintfItems(lines), PrintfText(lines), PrintfTokens(lines), close, CLOSE, CLOSE_TOKENS);
    ScriptReads(PrintfItems(lines) + close, PrintfText(lines) + CLOSE, PrintfTokens(lines) + CLOSE_TOKENS);
    AfterHead(HEAD, PrintfText(lines) + CLOSE);
  }

  lemma AfterHead(head: string, rest: string)
    ensures head <= head + rest && (head + rest)[|head|..] == rest
  {
  }

  // ----- reading back what was written -----

  /** An address the parser would return: a non-empty word without `#`, and not to be filtered. */
  predicate Address(v: string, unusable: string -> bool) {
    v != [] && '#' !in v && !unusable(v) && forall i :: 0 <= i < |v| ==> !IsWhitespace(v[i])
  }

  /** Lines that survive being printed and read again. */
  predicate PlainLine(line: string) {
    '\n' !in line && (line == [] || line[|line| - 1] != '\r')
  }

  lemma FirstLineIs(line: string, more: string)
    requires PlainLine(line)
    ensures Lines(line + ['\n'] + more) == [line] + Lines(more)
  {
    var s := line + ['\n'] + more;
    IndexOfFirst(line, '\n', more);
    assert s[..|line|] == line && s[|line| + 1..] == more;
  }

  lemma LinesOfRest(rest: string)
    requires '\n' !in rest
    ensures Lines(rest) == if rest == [] then [] else [rest]
  {
  }

  /** Every printed line is read, and what follows the last newline too. */
  lemma {:induction false} LinesExactly(lines: seq<string>, rest: string)
    requires '\n' !in rest && forall l :: l in lines ==> PlainLine(l)
    ensures Lines(Printed(lines) + rest) == lines + if rest == [] then [] else [rest]
  {
    hide Lines, PlainLine;
    if lines == [] {
      LinesOfRest(rest);
      assert Printed(lines) + rest == rest;
    } else {
      var more := Printed(lines[1..]) + rest;
      assert lines[0] in lines;
      assert Printed(lines) + rest == lines[0] + ['\n'] + more;
      FirstLineIs(lines[0], more);
      LinesExactly(lines[1..], rest);
    }
  }

  lemma LinesOfPrinted(lines: seq<string>)
    requires forall l :: l in lines ==> PlainLine(l)
    ensures Lines(Printed(lines)) == lines
  {
    LinesExactly(lines, []);
    assert Printed(lines) + [] == Printed(lines);
  }

  lemma {:induction false} TakeWordAll(v: string)
    requires forall i :: 0 <= i < |v| ==> !IsWhitespace(v[i])
    ensures TakeWord(v) == v
  {
    if v != [] { TakeWordAll(v[1..]); }
  }

  lemma NoComment(s: string)
    requires '#' !in s
    ensures BeforeComment(s) == s
  {
  }

  lemma FirstWordAfterBlank(v: string)
    requires v != [] && forall i :: 0 <= i < |v| ==> !IsWhitespace(v[i])
    ensures FirstWord(" " + v) == Some(v)
  {
    assert (" " + v)[1..] == v;
    TakeWordAll(v);
  }

  lemma KeywordLine(line: string, v: string)
    requires "nameserver" <= line && line[10..] == " " + v && '#' !in line
    requires v != [] && (forall i :: 0 <= i < |v| ==> !IsWhitespace(v[i]))
    ensures LineServer(line) == Some(v)
  {
    NoComment(line);
    assert line[0] == "nameserver"[0] && line[|line| - 1] == line[10..][|v|] == v[|v| - 1];
    TrimOfTrimmed(IsWhitespace, line);
    FirstWordAfterBlank(v);
  }

  /** A written nameserver line reads back as its address. */
  lemma NameserverLineReads(v: string, unusable: string -> bool)
    requires Address(v, unusable)
    ensures LineServer("nameserver " + v) == Some(v) && PlainLine("nameserver " + v)
  {
    var line := "nameserver " + v;
    forall i | 0 <= i < |v| ensures v[i] != '\n' && v[i] != '\r' { assert !IsWhitespace(v[i]); }
    KeywordFacts(v);
    KeywordLine(line, v);
    assert line[|line| - 1] == v[|v| - 1];
  }

  lemma KeywordFacts(v: string)
    requires '#' !in v
    ensures "nameserver" <= "nameserver " + v && '#' !in "nameserver " + v
    ensures '\n' !in v ==> '\n' !in "nameserver " + v
    ensures ("nameserver " + v)[10..] == " " + v
  {
    assert '#' !in "nameserver " && '\n' !in "nameserver ";
    assert ("nameserver " + v)[10..] == " " + v;
  }

  lemma CommentLine(line: string)
    requires line != [] && line[0] == '#'
    ensures LineServer(line) == None
  {
    assert line[..0] == [];
  }

  lemma OtherLine(line: string)
    requires line != [] && '#' !in line && line[0] != 'n' && !IsWhitespace(line[0]) && !IsWhitespace(line[|line| - 1])
    ensures LineServer(line) == None
  {
    NoComment(line);
    TrimOfTrimmed(IsWhitespace, line);
  }

  lemma FixedLines()
    ensures LineServer(HEADER) == None && PlainLine(HEADER)
    ensures LineServer(OPTIONS) == None && PlainLine(OPTIONS)
  {
    HeaderIsComment();
    HeaderIsPlain();
    OptionsIsPlain();
    OtherLine(OPTIONS);
  }

  lemma HeaderIsComment()
    ensures LineServer(HEADER) == None
  {
    CommentLine(HEADER);
  }

  lemma HeaderIsPlain()
    ensures PlainLine(HEADER)
  {
    assert '\n' !in "#";
    assert '\n' !in " Generated by statix-agent";
    assert '\n' !in " for job container DNS";
  }

  lemma OptionsIsPlain()
    ensures PlainLine(OPTIONS) && '#' !in OPTIONS
    ensures OPTIONS[0] == 'o' && OPTIONS[|OPTIONS| - 1] == '2'
  {
  }

  lemma {:induction false} ServersAppend(a: seq<string>, b: seq<string>, unusable: string -> bool)
    ensures Servers(a + b, unusable) == Servers(a, unusable) + Servers(b, unusable)
  {
    if a == [] {
      assert a + b == b;
    } else {
      assert (a + b)[1..] == a[1..] + b;
      ServersAppend(a[1..], b, unusable);
    }
  }

  lemma {:induction false} ServersOfLines(nameservers: seq<string>, unusable: string -> bool)
    requires forall v :: v in nameservers ==> Address(v, unusable)
    ensures Servers(NameserverLines(nameservers), unusable) == nameservers
    ensures forall l :: l in NameserverLines(nameservers) ==> PlainLine(l)
  {
    if nameservers != [] {
      NameserverLineReads(nameservers[0], unusable);
      ServersOfLines(nameservers[1..], unusable);
    }
  }

  lemma BodyReads(nameservers: seq<string>, unusable: string -> bool)
    requires forall v :: v in nameservers ==> Address(v, unusable)
    ensures Servers(Body(nameservers), unusable) == nameservers
    ensures forall l :: l in Body(nameservers) ==> PlainLine(l)
  {
    ServersOfLines(nameservers, unusable);
    FixedLines();
    ServersAppend(NameserverLines(nameservers), [OPTIONS], unusable);
    assert Servers([OPTIONS], unusable) == [] + Servers([OPTIONS][1..], unusable) == [];
  }

  /** What the parser returns is made of addresses, each once. */
  lemma ParsedAreAddresses(contents: string, unusable: string -> bool)
    ensures NoRepeats(Parse(contents, unusable))
    ensures forall v :: v in Parse(contents, unusable) ==> Address(v, unusable)
  {
    DedupeFacts(Servers(Lines(contents), unusable));
    ServersAreAddresses(Lines(contents), unusable);
  }

  lemma {:induction false} ServersAreAddresses(lines: seq<string>, unusable: string -> bool)
    ensures forall v :: v in Servers(lines, unusable) ==> Address(v, unusable)
  {
    if lines != [] {
      ServersAreAddresses(lines[1..], unusable);
      LineServerIsWord(lines[0]);
    }
  }

  lemma {:induction false} FirstWordFacts(s: string)
    ensures match FirstWord(s)
            case None => true
            case Some(w) => w != [] && (forall i :: 0 <= i < |w| ==> !IsWhitespace(w[i])) && forall c :: c in w ==> c in s
  {
    if s != [] {
      if IsWhitespace(s[0]) { FirstWordFacts(s[1..]); } else { TakeWordFacts(s); }
    }
  }

  lemma {:induction false} TakeWordFacts(s: string)
    ensures forall i :: 0 <= i < |TakeWord(s)| ==> !IsWhitespace(TakeWord(s)[i])
    ensures s != [] && !IsWhitespace(s[0]) ==> TakeWord(s) != []
  {
    if s != [] && !IsWhitespace(s[0]) { TakeWordFacts(s[1..]); }
  }

  lemma LineServerIsWord(line: string)
    ensures match LineServer(line)
            case None => true
            case Some(w) => w != [] && '#' !in w && forall i :: 0 <= i < |w| ==> !IsWhitespace(w[i])
  {
    var b := BeforeComment(line);
    assert '#' !in b;
    var lo, hi := TrimIsSlice(IsWhitespace, b);
    var t := b[lo..hi];
    if "nameserver" <= t { FirstWordFacts(t[10..]); }
  }

  /** Lines put before the body, read back. */
  lemma ReadLines(first: seq<string>, ns: seq<string>, unusable: string -> bool)
    requires forall v :: v in ns ==> Address(v, unusable)
    requires forall l :: l in first ==> PlainLine(l)
    ensures Servers(Lines(Printed([HEADER] + (first + Body(ns)))), unusable) == Servers(first, unusable) + ns
  {
    var lines := [HEADER] + (first + Body(ns));
    FixedLines();
    BodyReads(ns, unusable);
    ServersAppend(first, Body(ns), unusable);
    assert lines[1..] == first + Body(ns);
    LinesOfPrinted(lines);
  }

  lemma OneServer(v: string, unusable: string -> bool)
    requires Address(v, unusable)
    ensures Servers(["nameserver " + v], unusable) == [v]
  {
    NameserverLineReads(v, unusable);
    assert ["nameserver " + v][1..] == [];
  }

  /** What is read back from a written file. */
  lemma ReadBack(ns: seq<string>, unusable: string -> bool, gateway: string)
    requires forall v :: v in ns ==> Address(v, unusable)
    requires gateway == [] || Address(gateway, unusable)
    ensures Parse(FileText(ns, gateway), unusable) == Dedupe((if gateway == [] then [] else [gateway]) + ns)
  {
    if gateway == [] {
      ReadLines([], ns, unusable);
    } else {
      OneServer(gateway, unusable);
      NameserverLineReads(gateway, unusable);
      ReadLines(["nameserver " + gateway], ns, unusable);
    }
  }

  lemma DedupeSnoc(ns: seq<string>, v: string)
    ensures Dedupe(ns + [v]) == Dedupe(ns) + if v in Dedupe(ns) then [] else [v]
  {
    assert (ns + [v])[..|ns|] == ns;
  }

  /** What moving to the front means. */
  lemma {:induction false} GatewayFirst(g: string, ns: seq<string>)
    requires NoRepeats(ns)
    ensures Dedupe([g] + ns) == [g] + Drop(ns, g)
  {
    if ns == [] {
      assert [g] + ns == [] + [g];
      DedupeSnoc([], g);
    } else {
      var k := |ns| - 1;
      GatewayFirst(g, ns[..k]);
      DropMembers(ns[..k], g);
      assert ns == ns[..k] + [ns[k]];
      hide Dedupe;
      assert [g] + ns == ([g] + ns[..k]) + [ns[k]];
      DedupeSnoc([g] + ns[..k], ns[k]);
    }
  }

  function Drop(ns: seq<string>, g: string): seq<string> {
    if ns == [] then []
    else var k := |ns| - 1; Drop(ns[..k], g) + if ns[k] == g then [] else [ns[k]]
  }

  lemma {:induction false} DropMembers(ns: seq<string>, g: string)
    ensures forall v :: v in Drop(ns, g) <==> v in ns && v != g
  {
    if ns != [] {
      var k := |ns| - 1;
      DropMembers(ns[..k], g);
      assert ns == ns[..k] + [ns[k]];
    }
  }
}
