/** What the generated commands leave in a guest's resolv.conf, and what is read from it again. */
module ResolvGuest {
  import opened Text
  import opened ShellWords
  import opened ResolvConf

  // ----- which nameservers are written -----

  datatype Config = Config(nameservers: seq<string>, includeDefaultGateway: bool)

  /** `split(',')` */
  function Split(value: string): seq<string>
    decreases |value|
  {
    match IndexOf(value, ',')
    case None => [value]
    case Some(p) => [value[..p]] + Split(value[p + 1..])
  }

  function Trimmed(values: seq<string>): seq<string> {
    if values == [] then []
    else
      var v := Trim(IsWhitespace, values[0]);
      (if v == [] then [] else [v]) + Trimmed(values[1..])
  }

  function Configured(value: string): seq<string> { Dedupe(Trimmed(Split(value))) }

  /** The servers of the first file that can be read and names any. */
  function FirstServers(contents: seq<Option<string>>, unusable: string -> bool): seq<string> {
    if contents == [] then []
    else
      var found := match contents[0] case None => [] case Some(text) => Parse(text, unusable);
      if found != [] then Dedupe(found) else FirstServers(contents[1..], unusable)
  }

  predicate NamesNone(content: Option<string>, unusable: string -> bool) {
    content.Some? ==> Parse(content.value, unusable) == []
  }

  /** The first file that can be read and names servers decides; later ones are not looked at. */
  lemma {:induction false} FirstServersExactly(contents: seq<Option<string>>, unusable: string -> bool)
    ensures var found := FirstServers(contents, unusable);
            if found == [] then forall i :: 0 <= i < |contents| ==> NamesNone(contents[i], unusable)
            else exists k :: && 0 <= k < |contents| && contents[k].Some? && found == Parse(contents[k].value, unusable)
                             && forall j :: 0 <= j < k ==> NamesNone(contents[j], unusable)
  {
    if contents != [] {
      var rest := contents[1..];
      FirstServersExactly(rest, unusable);
      if contents[0].Some? {
        ParsedAreAddresses(contents[0].value, unusable);
        DedupeOfDistinct(Parse(contents[0].value, unusable));
      }
      hide Parse;
      assert forall i :: 1 <= i < |contents| ==> contents[i] == rest[i - 1];
      if NamesNone(contents[0], unusable) && FirstServers(rest, unusable) != [] {
        var k :| && 0 <= k < |rest| && rest[k].Some? && FirstServers(rest, unusable) == Parse(rest[k].value, unusable)
                 && forall j :: 0 <= j < k ==> NamesNone(rest[j], unusable);
        assert contents[k + 1] == rest[k];
        forall j | 0 <= j < k + 1 ensures NamesNone(contents[j], unusable) { assert j > 0 ==> contents[j] == rest[j - 1]; }
      }
    }
  }

  function CommaJoined(pieces: seq<string>): string
    requires pieces != []
  {
    if |pieces| == 1 then pieces[0] else pieces[0] + [','] + CommaJoined(pieces[1..])
  }

  lemma {:induction false} SplitOfJoined(pieces: seq<string>)
    requires pieces != [] && forall p :: p in pieces ==> ',' !in p
    ensures Split(CommaJoined(pieces)) == pieces
  {
    var value := CommaJoined(pieces);
    assert pieces[0] in pieces;
    if |pieces| == 1 {
      assert IndexOf(value, ',') == None && [pieces[0]] == pieces;
    } else {
      var rest := CommaJoined(pieces[1..]);
      IndexOfFirst(pieces[0], ',', rest);
      assert value[..|pieces[0]|] == pieces[0] && value[|pieces[0]| + 1..] == rest;
      SplitOfJoined(pieces[1..]);
      assert [pieces[0]] + pieces[1..] == pieces;
    }
  }

  lemma {:induction false} TrimmedAre(pieces: seq<string>, v: string)
    ensures v in Trimmed(pieces) <==> v != [] && exists i :: 0 <= i < |pieces| && Trim(IsWhitespace, pieces[i]) == v
    ensures (forall i :: 0 <= i < |pieces| ==> Trim(IsWhitespace, pieces[i]) != []) ==>
              |Trimmed(pieces)| == |pieces| && forall i :: 0 <= i < |pieces| ==> Trimmed(pieces)[i] == Trim(IsWhitespace, pieces[i])
  {
    hide Trim;
    if pieces != [] {
      var rest := pieces[1..];
      TrimmedAre(rest, v);
      assert forall i :: 1 <= i < |pieces| ==> pieces[i] == rest[i - 1];
      if i :| 0 <= i < |pieces| && Trim(IsWhitespace, pieces[i]) == v { assert i > 0 ==> rest[i - 1] == pieces[i]; }
      if j :| 0 <= j < |rest| && Trim(IsWhitespace, rest[j]) == v { assert pieces[j + 1] == rest[j]; }
    }
  }

  /** What a comma-separated value configures: the pieces that are not blank, without blanks around them. */
  lemma ConfiguredExactly(pieces: seq<string>, v: string)
    requires pieces != [] && forall p :: p in pieces ==> ',' !in p
    ensures v in Configured(CommaJoined(pieces))
       <==> v != [] && exists i :: 0 <= i < |pieces| && Trim(IsWhitespace, pieces[i]) == v
  {
    hide Trim, Split, CommaJoined, Dedupe;
    SplitOfJoined(pieces);
    DedupeFacts(Trimmed(pieces));
    TrimmedAre(pieces, v);
  }

  /** If none is blank and all differ, they are configured in order. */
  lemma ConfiguredInOrder(pieces: seq<string>)
    requires pieces != [] && forall p :: p in pieces ==> ',' !in p
    requires forall i :: 0 <= i < |pieces| ==> Trim(IsWhitespace, pieces[i]) != []
    requires forall i, j :: 0 <= i < j < |pieces| ==> Trim(IsWhitespace, pieces[i]) != Trim(IsWhitespace, pieces[j])
    ensures var ns := Configured(CommaJoined(pieces));
            |ns| == |pieces| && forall i :: 0 <= i < |pieces| ==> ns[i] == Trim(IsWhitespace, pieces[i])
  {
    hide Trim, Split, CommaJoined, Dedupe;
    SplitOfJoined(pieces);
    TrimmedAre(pieces, []);
    DedupeOfDistinct(Trimmed(pieces));
  }

  /** `configured` is the environment variable, `contents` are the host's resolv.conf files. */
  function DnsConfig(configured: Option<string>, contents: seq<Option<string>>, unusable: string -> bool): Config {
    var own := match configured case None => [] case Some(value) => Configured(value);
    if own != [] then Config(own, false) else Config(FirstServers(contents, unusable), true)
  }

  function Command(c: Config): string {
    if c.includeDefaultGateway then GatewayCommand(c.nameservers) else DirectCommand(c.nameservers)
  }

  // ----- running a command -----

  type Files = map<string, string>

  /** The files; the output of the open group; the words of the command being read; the file its
      output goes to; and whether a group has just been closed. */
  datatype State = State(files: Files, group: Option<string>, words: seq<string>, to: Option<string>, closed: bool)

  /** `printf '%s\n'` with operands. */
  function Output(words: seq<string>): Option<string> {
    if |words| > 2 && words[0] == "printf" && words[1] == FORMAT then Some(Printed(words[2..])) else None
  }

  /** The command read so far ends and runs; nothing if it is not one of those this model knows. */
  function EndCommand(st: State): Option<State> {
    if st.closed then
      if st.to.Some? && st.group.Some? then
        Some(State(st.files[st.to.value := st.group.value], None, [], None, false))
      else None
    else if |st.words| == 3 && st.words[0] == "rm" && st.words[1] == "-f" && st.to.None? then
      Some(st.(files := st.files - {st.words[2]}, words := []))
    else
      match Output(st.words)
      case None => None
      case Some(text) =>
        if st.to.Some? then Some(st.(files := st.files[st.to.value := text], words := [], to := None))
        else if st.group.Some? then Some(st.(group := Some(st.group.value + text), words := []))
        else None
  }

  function OnWord(st: State, w: string): Option<State> {
    if st.to.Some? || st.closed then None
    else if st.words == [] && w == "{" then if st.group.None? then Some(st.(group := Some(""))) else None
    else if st.words == [] && w == "}" then if st.group.Some? then Some(st.(closed := true)) else None
    else Some(st.(words := st.words + [w]))
  }

  /** Commands that succeed run on through `&&` and `;` alike; `>` takes the next word as a file. */
  function Steps(ts: seq<Token>, st: State): Option<State> {
    if ts == [] then Some(st)
    else
      match ts[0]
      case Word(w) => (match OnWord(st, w) case None => None case Some(next) => Steps(ts[1..], next))
      case Operator(symbol) =>
        if symbol == ">" then
          if st.to.None? && |ts| > 1 && ts[1].Word? then Steps(ts[2..], st.(to := Some(ts[1].text))) else None
        else if symbol == "&&" || symbol == ";" then
          match EndCommand(st) case None => None case Some(next) => Steps(ts[1..], next)
        else None
  }

  function Start(files: Files): State { State(files, None, [], None, false) }

  /** The files after the last command, if no group is left open. */
  function Finish(st: State): Option<Files> {
    match EndCommand(st)
    case None => None
    case Some(last) => if last.group.None? then Some(last.files) else None
  }

  function StepsOf(script: string, st: State): Option<State> {
    match Scan(script, Between) case None => None case Some(ts) => Steps(ts, st)
  }

  function RunDirect(command: string, files: Files): Option<Files> {
    match StepsOf(command, Start(files)) case None => None case Some(st) => Finish(st)
  }

  /** The conditional in the fixed head: the command before it ends, and the group's output goes on
      with the gateway's line. */
  function Choose(st: State, gateway: string): Option<State> {
    match EndCommand(st)
    case None => None
    case Some(next) =>
      if next.group.None? then None
      else Some(next.(group := Some(next.group.value + Printed(GatewayLines(gateway)))))
  }

  /** A fixed head ends in the conditional and starts with `opening`; the rest is read from the
      command's own text. */
  function RunHeaded(command: string, head: string, opening: string, gateway: string, files: Files): Option<Files> {
    if !(head <= command) then None
    else
      match StepsOf(opening, Start(files))
      case None => None
      case Some(open) =>
        match Choose(open, gateway)
        case None => None
        case Some(chosen) =>
          match StepsOf(command[|head|..], chosen)
          case None => None
          case Some(st) => Finish(st)
  }

  /** The head assigns the lookup's answer, opens the group and chooses. */
  function RunGateway(command: string, gateway: string, files: Files): Option<Files> {
    RunHeaded(command, HEAD, OPEN, gateway, files)
  }

  function RunInGuest(c: Config, gateway: string, files: Files): Option<Files> {
    if c.includeDefaultGateway then RunGateway(Command(c), gateway, files) else RunDirect(Command(c), files)
  }

  // ----- each command writes its file -----

  /** The shell is reading the words of a command. */
  predicate Reading(st: State) { st.words != [] && st.to.None? && !st.closed }

  lemma ReadWord(w: string, rest: seq<Token>, st: State)
    requires Reading(st)
    ensures Steps([Word(w)] + rest, st) == Steps(rest, st.(words := st.words + [w]))
    ensures Reading(st.(words := st.words + [w]))
  {
    hide EndCommand;
    assert ([Word(w)] + rest)[1..] == rest;
  }

  lemma NoWords(rest: seq<Token>)
    ensures Words([]) + rest == rest
  {
  }

  lemma WordsCons(vs: seq<string>, rest: seq<Token>)
    requires vs != []
    ensures Words(vs) + rest == [Word(vs[0])] + (Words(vs[1..]) + rest)
  {
  }

  lemma HeadOfRest(words: seq<string>, vs: seq<string>)
    requires vs != []
    ensures words + [vs[0]] + vs[1..] == words + vs
  {
  }

  lemma {:induction false} ReadWords(vs: seq<string>, rest: seq<Token>, st: State)
    requires Reading(st)
    ensures Steps(Words(vs) + rest, st) == Steps(rest, st.(words := st.words + vs))
  {
    hide Steps, Reading, Words;
    if vs == [] {
      NoWords(rest);
      assert st.words + vs == st.words;
    } else {
      WordsCons(vs, rest);
      ReadWord(vs[0], Words(vs[1..]) + rest, st);
      ReadWords(vs[1..], rest, st.(words := st.words + [vs[0]]));
      HeadOfRest(st.words, vs);
    }
  }

  function PrintfWords(lines: seq<string>): seq<string> { ["printf", FORMAT] + lines }

  lemma ReadPrintf(lines: seq<string>, rest: seq<Token>, st: State)
    requires st.words == [] && st.to.None? && !st.closed
    ensures Steps(PrintfTokens(lines) + rest, st) == Steps(rest, st.(words := PrintfWords(lines)))
  {
    var ts := PrintfTokens(lines) + rest;
    var more := [Word(FORMAT)] + Words(lines);
    assert ts == [Word("printf")] + (more + rest) && ts[1..] == more + rest;
    assert Words([FORMAT] + lines) == more by { assert ([FORMAT] + lines)[1..] == lines; }
    var first := st.(words := ["printf"]);
    assert OnWord(st, "printf") == Some(first) by { assert [] + ["printf"] == ["printf"]; }
    hide OnWord, EndCommand;
    ReadWords([FORMAT] + lines, rest, first);
    assert ["printf"] + ([FORMAT] + lines) == PrintfWords(lines);
  }

  lemma PrintfPrints(lines: seq<string>)
    requires lines != []
    ensures Output(PrintfWords(lines)) == Some(Printed(lines))
    ensures PrintfWords(lines)[0] != "rm"
  {
    assert PrintfWords(lines)[2..] == lines;
  }

  lemma Removes(rest: seq<Token>, files: Files)
    ensures Steps(PrefixTokens(REMOVE) + rest, Start(files)) == Steps(rest, Start(files - {RESOLV_CONF}))
  {
    var words := ["rm", "-f", RESOLV_CONF];
    var after := [Operator("&&")] + rest;
    RemoveTokens();
    assert PrefixTokens(REMOVE) + rest == [Word("rm")] + (Words(["-f", RESOLV_CONF]) + after);
    var st := Start(files);
    assert OnWord(st, "rm") == Some(st.(words := ["rm"])) by { assert [] + ["rm"] == ["rm"]; }
    ReadWords(["-f", RESOLV_CONF], after, st.(words := ["rm"]));
    assert ["rm"] + ["-f", RESOLV_CONF] == words;
    assert after[1..] == rest;
  }

  lemma RemoveTokens()
    ensures PrefixTokens(REMOVE) == [Word("rm")] + (Words(["-f", RESOLV_CONF]) + [Operator("&&")])
  {
    var c := REMOVE[0];
    assert REMOVE[1..] == [] && PrefixTokens([]) == [];
    assert c.words[1..] == ["-f", RESOLV_CONF];
    assert Words(c.words) == [Word("rm")] + Words(["-f", RESOLV_CONF]);
  }

  lemma RedirectsTo(st: State, f: string)
    requires st.to.None?
    ensures Steps([Operator(">"), Word(f)], st) == Some(st.(to := Some(f)))
  {
    assert [Operator(">"), Word(f)][2..] == [];
  }

  /** The direct command leaves exactly its file, whatever was there before. */
  lemma DirectWrites(ns: seq<string>, files: Files)
    ensures RunDirect(DirectCommand(ns), files) == Some(files[RESOLV_CONF := FileText(ns, [])])
  {
    var lines := [HEADER] + Body(ns);
    var to := [Operator(">"), Word(RESOLV_CONF)];
    DirectCommandPrintsLines(ns);
    hide DirectCommand, PrefixTokens, PrintfTokens, Body, Printed;
    Removes(PrintfTokens(lines) + to, files);
    var st := Start(files - {RESOLV_CONF});
    ReadPrintf(lines, to, st);
    RedirectsTo(st.(words := PrintfWords(lines)), RESOLV_CONF);
    PrintfPrints(lines);
    hide PrintfWords, Output;
    assert [] + Body(ns) == Body(ns);
    assert (files - {RESOLV_CONF})[RESOLV_CONF := Printed(lines)] == files[RESOLV_CONF := Printed(lines)];
  }

  lemma {:induction false} PrintedAppend(a: seq<string>, b: seq<string>)
    ensures Printed(a + b) == Printed(a) + Printed(b)
  {
    if a == [] {
      assert a + b == b;
    } else {
      assert (a + b)[1..] == a[1..] + b;
      PrintedAppend(a[1..], b);
    }
  }

  lemma Opens(files: Files)
    ensures StepsOf(OPEN, Start(files))
         == Some(State(files - {RESOLV_CONF}, Some(""), PrintfWords([HEADER]), None, false))
  {
    var printf := PrintfTokens([HEADER]);
    OpeningScans();
    hide PrintfTokens, PrefixTokens;
    Removes([Word("{")] + printf, files);
    var st := Start(files - {RESOLV_CONF});
    assert ([Word("{")] + printf)[1..] == printf && printf + [] == printf;
    ReadPrintf([HEADER], [], st.(group := Some("")));
  }

  lemma Chooses(files: Files, gateway: string)
    ensures Choose(State(files, Some(""), PrintfWords([HEADER]), None, false), gateway)
         == Some(State(files, Some(Printed([HEADER] + GatewayLines(gateway))), [], None, false))
  {
    PrintfPrints([HEADER]);
    PrintedAppend([HEADER], GatewayLines(gateway));
    hide PrintfWords, Output, Printed;
    assert "" + Printed([HEADER]) == Printed([HEADER]);
  }

  lemma Closes(lines: seq<string>, before: string, files: Files)
    requires lines != []
    ensures Steps(CLOSE_TOKENS, State(files, Some(before), PrintfWords(lines), None, false))
         == Some(State(files, Some(before + Printed(lines)), [], Some(RESOLV_CONF), true))
  {
    PrintfPrints(lines);
    hide PrintfWords, Output, Printed;
    var to := [Operator(">"), Word(RESOLV_CONF)];
    var st := State(files, Some(before + Printed(lines)), [], None, false);
    assert CLOSE_TOKENS[1..] == [Word("}")] + to && ([Word("}")] + to)[1..] == to;
    RedirectsTo(st.(closed := true), RESOLV_CONF);
  }

  lemma Ends(lines: seq<string>, before: string, files: Files)
    requires lines != []
    ensures Steps(PrintfTokens(lines) + CLOSE_TOKENS, State(files, Some(before), [], None, false))
         == Some(State(files, Some(before + Printed(lines)), [], Some(RESOLV_CONF), true))
  {
    hide PrintfTokens, Printed, PrintfWords;
    ReadPrintf(lines, CLOSE_TOKENS, State(files, Some(before), [], None, false));
    Closes(lines, before, files);
  }

  lemma HeadedWrites(command: string, head: string, opening: string, gateway: string, files: Files,
                     left: Files, lines: seq<string>, open: State, text: string)
    requires StepsOf(opening, Start(files)) == Some(open) && lines != []
    requires Choose(open, gateway) == Some(State(left, Some(text), [], None, false))
    requires head <= command && Scan(command[|head|..], Between) == Some(PrintfTokens(lines) + CLOSE_TOKENS)
    ensures RunHeaded(command, head, opening, gateway, files) == Some(left[RESOLV_CONF := text + Printed(lines)])
  {
    Ends(lines, text, left);
    hide Choose, Scan, Steps, PrintfTokens, Printed;
  }

  lemma TextInParts(ns: seq<string>, gateway: string)
    ensures Printed([HEADER] + GatewayLines(gateway)) + Printed(Body(ns)) == FileText(ns, gateway) && Body(ns) != []
  {
    PrintedAppend([HEADER] + GatewayLines(gateway), Body(ns));
    Assoc([HEADER], GatewayLines(gateway), Body(ns));
  }

  lemma Replaced(files: Files, name: string, text: string)
    ensures (files - {name})[name := text] == files[name := text]
  {
  }

  /** The gateway command leaves exactly its file, with the gateway's line if there is a gateway. */
  lemma GatewayWrites(ns: seq<string>, gateway: string, files: Files)
    ensures RunGateway(GatewayCommand(ns), gateway, files) == Some(files[RESOLV_CONF := FileText(ns, gateway)])
  {
    var left := files - {RESOLV_CONF};
    Opens(files);
    Chooses(left, gateway);
    GatewayCommandScans(ns);
    TextInParts(ns, gateway);
    hide GatewayCommand, Body, Printed, PrintfTokens, GatewayLines, Choose, PrintfWords, Steps, StepsOf, Scan, RunHeaded, FileText;
    HeadedWrites(GatewayCommand(ns), HEAD, OPEN, gateway, files, left, Body(ns),
                 State(left, Some(""), PrintfWords([HEADER]), None, false), Printed([HEADER] + GatewayLines(gateway)));
    Replaced(files, RESOLV_CONF, FileText(ns, gateway));
  }

  // ----- round trips -----

  lemma {:induction false} FirstServersAreAddresses(contents: seq<Option<string>>, unusable: string -> bool)
    ensures NoRepeats(FirstServers(contents, unusable))
    ensures forall v :: v in FirstServers(contents, unusable) ==> Address(v, unusable)
  {
    if contents != [] {
      FirstServersAreAddresses(contents[1..], unusable);
      if contents[0].Some? {
        var found := Parse(contents[0].value, unusable);
        ParsedAreAddresses(contents[0].value, unusable);
        DedupeOfDistinct(found);
      }
    }
  }

  /** Without configured servers, whatever the host's files hold: running the generated command in a
      guest and reading its resolv.conf gives the host's nameservers, with the guest's default gateway,
      if it has a usable one, put first and removed from its old place. */
  lemma RoundTrip(configured: Option<string>, contents: seq<Option<string>>, unusable: string -> bool,
                  gateway: string, files: Files)
    requires configured.None? || Configured(configured.value) == []
    requires gateway == [] || Address(gateway, unusable)
    ensures var c := DnsConfig(configured, contents, unusable);
            var after := RunInGuest(c, gateway, files);
            && c.nameservers == FirstServers(contents, unusable) && after.Some? && "/etc/resolv.conf" in after.value
            && Parse(after.value["/etc/resolv.conf"], unusable)
               == if gateway == [] then c.nameservers else [gateway] + Drop(c.nameservers, gateway)
  {
    var ns := FirstServers(contents, unusable);
    FirstServersAreAddresses(contents, unusable);
    GatewayWrites(ns, gateway, files);
    ReadBack(ns, unusable, gateway);
    hide RunGateway, GatewayCommand, Parse, FileText, FirstServers, Address, NoRepeats, Configured;
    if gateway == [] {
      assert [] + ns == ns;
      DedupeOfDistinct(ns);
    } else {
      GatewayFirst(gateway, ns);
    }
  }

  /** Configured servers, of any number, are what the guest reads if and only if all of them are
      addresses: one with blanks or `#`, or a loopback one, is written but not read back. */
  lemma ConfiguredRoundTrip(value: string, contents: seq<Option<string>>, unusable: string -> bool, gateway: string, files: Files)
    requires Configured(value) != []
    ensures var c := DnsConfig(Some(value), contents, unusable);
            var after := RunInGuest(c, gateway, files);
            && c.nameservers == Configured(value) && after.Some? && "/etc/resolv.conf" in after.value
            && (Parse(after.value["/etc/resolv.conf"], unusable) == c.nameservers
                <==> forall v :: v in c.nameservers ==> Address(v, unusable))
  {
    var ns := Configured(value);
    DedupeFacts(Trimmed(Split(value)));
    DirectWrites(ns, files);
    WrittenAndRead(ns, unusable);
  }

  lemma WrittenAndRead(ns: seq<string>, unusable: string -> bool)
    requires NoRepeats(ns)
    ensures Parse(FileText(ns, []), unusable) == ns <==> forall v :: v in ns ==> Address(v, unusable)
  {
    ParsedAreAddresses(FileText(ns, []), unusable);
    hide Parse, FileText, Address;
    if forall v :: v in ns ==> Address(v, unusable) {
      ReadBack(ns, unusable, []);
      DedupeOfDistinct(ns);
      assert [] + ns == ns;
    }
  }
}
