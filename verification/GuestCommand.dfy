/** Compiling a command into the script that runs it in a container or microVM, and what a shell
    does with that script. */
module GuestCommand {
  import opened Text
  import opened ShellWords

  // ----- commands -----

  datatype EnvVar = EnvVar(key: string, value: string)

  /** `env` lists the entries of an ordered map: its keys are distinct. */
  datatype CommandSpec = CommandSpec(argv: seq<string>, env: seq<EnvVar>, cwd: Option<string>)

  datatype Verdict = Valid | EmptyCommand | InvalidKey(key: string)

  predicate IsNameStart(c: char) { c == '_' || IsAsciiAlphabetic(c) }

  predicate IsNameChar(c: char) { c == '_' || IsAsciiAlphanumeric(c) }

  predicate IsName(key: string) {
    key != [] && IsNameStart(key[0]) && forall i :: 0 <= i < |key| ==> IsNameChar(key[i])
  }

  function CheckKeys(env: seq<EnvVar>): Verdict {
    if env == [] then Valid
    else if IsName(env[0].key) then CheckKeys(env[1..])
    else InvalidKey(env[0].key)
  }

  function Validate(spec: CommandSpec): Verdict {
    if spec.argv == [] || Trim(IsWhitespace, spec.argv[0]) == [] then EmptyCommand
    else CheckKeys(spec.env)
  }

  predicate DistinctKeys(env: seq<EnvVar>) {
    forall i, j :: 0 <= i < j < |env| ==> env[i].key != env[j].key
  }

  // ----- compilation -----

  const DOCKER_DIR: string := "/home/statix/docker"

  /** Keys that are no shell name are replaced, never quoted. */
  function EnvKey(key: string): string { if IsName(key) then key else "STATIX_INVALID_ENV" }

  function Export(e: EnvVar): string { "export " + (EnvKey(e.key) + "=" + Escape(e.value)) + ";" }

  function Exports(env: seq<EnvVar>): string {
    if env == [] then []
    else if |env| == 1 then Export(env[0])
    else Export(env[0]) + " " + Exports(env[1..])
  }

  /** The working directory, or nothing when the command is refused. */
  function WorkDir(spec: CommandSpec): Option<string> {
    var cwd := match spec.cwd case None => DOCKER_DIR case Some(d) => if d == "/workspace" then DOCKER_DIR else d;
    if DOCKER_DIR <= cwd then Some(cwd) else None
  }

  function UserCommand(cwd: string, spec: CommandSpec): string {
    "cd " + Escape(cwd) + " && " + Exports(spec.env) + " exec " + Join(spec.argv)
  }

  const LXC_CLAUSES: seq<Clause> := [
    Clause(["rm", "-rf", DOCKER_DIR], AndIf),
    Clause(["mkdir", "-p", DOCKER_DIR], AndIf),
    Clause(["tar", "-xzf", "/tmp/statix-workspace.tar.gz", "-C", DOCKER_DIR], AndIf),
    Clause(["chown", "-R", "statix:statix", DOCKER_DIR], AndIf)]

  const LXC_SHELL: seq<string> := ["su", "-s", "/bin/bash", "-", "statix", "-c"]

  const MICROVM_CLAUSES: seq<Clause> := [
    Clause(["set", "-e"], Semi),
    Clause(["if", "!", "command", "-v", "docker"], Into), Clause(["/dev/null", "2"], Dup), Clause(["1"], OrIf),
    Clause(["!", "sudo", "docker", "info"], Into), Clause(["/dev/null", "2"], Dup), Clause(["1"], Semi),
    Clause(["then", "sudo", "apt-get", "update"], AndIf),
    Clause(["sudo", "env", "DEBIAN_FRONTEND=noninteractive", "apt-get", "install", "-y", "docker.io",
            "docker-compose-v2", "curl"], Semi),
    Clause(["sudo", "systemctl", "enable", "--now", "docker"], Semi),
    Clause(["fi"], Semi),
    Clause(["sudo", "usermod", "--append", "--groups", "docker", "statix"], Semi),
    Clause(["sudo", "install", "-d", "-o", "statix", "-g", "statix", "-m", "0755", DOCKER_DIR], Semi),
    Clause(["find", DOCKER_DIR, "-mindepth", "1", "-maxdepth", "1", "-exec", "rm", "-rf", "--", "{}", "+"], Semi),
    Clause(["tar", "-xzf", "/home/statix/workspace.tar.gz", "-C", DOCKER_DIR], Semi),
    Clause(["sudo", "chown", "-R", "statix:statix", DOCKER_DIR], Semi)]

  const MICROVM_SHELL: seq<string> := ["sg", "docker", "-c"]

  datatype Runner = Lxc | Microvm

  function Clauses(r: Runner): seq<Clause> { if r.Lxc? then LXC_CLAUSES else MICROVM_CLAUSES }

  function ShellWordsOf(r: Runner): seq<string> { if r.Lxc? then LXC_SHELL else MICROVM_SHELL }

  /** The script handed to the guest: fixed preparation, then a second shell running the user's command. */
  function Compile(r: Runner, spec: CommandSpec): Option<string> {
    match WorkDir(spec)
    case None => None
    case Some(cwd) =>
      Some(PrefixText(Clauses(r)) + (SpaceJoined(ShellWordsOf(r)) + " " + Escape(UserCommand(cwd, spec))))
  }

  // ----- what the inner shell does -----

  /** A simple command and whether `&&` stands before it. */
  datatype Simple = Simple(guarded: bool, words: seq<string>)

  function ConsCommand(c: Simple, r: Option<seq<Simple>>): Option<seq<Simple>> {
    match r
    case None => None
    case Some(cs) => Some([c] + cs)
  }

  /** Commands separated by `;` and `&&`; nothing if there are other operators or empty commands. */
  function Commands(ts: seq<Token>, guarded: bool, words: seq<string>): Option<seq<Simple>> {
    if ts == [] then Some(if words == [] then [] else [Simple(guarded, words)])
    else
      match ts[0]
      case Word(w) => Commands(ts[1..], guarded, words + [w])
      case Operator(symbol) =>
        if words == [] then None
        else if symbol == ";" then ConsCommand(Simple(guarded, words), Commands(ts[1..], false, []))
        else if symbol == "&&" then ConsCommand(Simple(guarded, words), Commands(ts[1..], true, []))
        else None
  }

  datatype Shell = Shell(cwd: string, env: map<string, string>)

  /** Which shell reads the script. A plain `sh` has no options for `exec`; whether it drops a leading
      `--`, and whether it refuses other words that start with a dash, differs between versions. */
  datatype Dialect = Bash | Sh(dropsDashes: bool, refusesOptions: bool)

  /** What the guest contributes: its shell, the directories that can be entered, what the environment is
      after a `cd` into one (shells set `PWD` and `OLDPWD`), and the variables the shell keeps for itself
      (as bash keeps `UID`), with their values. */
  datatype Guest = Guest(dialect: Dialect, canEnter: string -> bool,
                         entered: (map<string, string>, string) -> map<string, string>, held: map<string, string>)

  /** The shell after a successful `cd`. */
  function Enter(g: Guest, sh: Shell, cwd: string): Shell { Shell(cwd, g.entered(sh.env, cwd)) }

  /** `exec` of a program with an argument vector in a directory and environment; or the script ended,
      with its last status; or it does something this model gives no meaning to. */
  datatype Outcome =
    | Exec(program: string, argv: seq<string>, shell: Shell)
    | Finished(shell: Shell, ok: bool)
    | Unsupported

  // ----- the operands of `exec` -----

  predicate LooksLikeOption(word: string) { "-" <= word && word != "-" }

  datatype Options = Options(clear: bool, login: bool, name: Option<string>)

  datatype ExecLine = Operands(options: Options, words: seq<string>) | BadUsage

  /** bash: `exec [-cl] [-a name] [command [argument ...]]`; `--` ends the options. */
  function BashOptions(words: seq<string>, o: Options): ExecLine
    decreases |words|, 0
  {
    if words == [] || !LooksLikeOption(words[0]) then Operands(o, words)
    else if words[0] == "--" then Operands(o, words[1..])
    else BashLetters(words[0][1..], words[1..], o)
  }

  /** The letters left in one option word, then the words after it. */
  function BashLetters(letters: string, rest: seq<string>, o: Options): ExecLine
    decreases |rest|, |letters| + 1
  {
    if letters == [] then BashOptions(rest, o)
    else if letters[0] == 'c' then BashLetters(letters[1..], rest, o.(clear := true))
    else if letters[0] == 'l' then BashLetters(letters[1..], rest, o.(login := true))
    else if letters[0] != 'a' then BadUsage
    else if |letters| > 1 then BashOptions(rest, o.(name := Some(letters[1..])))
    else if rest == [] then BadUsage
    else BashOptions(rest[1..], o.(name := Some(rest[0])))
  }

  function BashExec(words: seq<string>, sh: Shell): Outcome {
    match BashOptions(words, Options(false, false, None))
    case BadUsage => Finished(sh, false)
    case Operands(o, ws) =>
      if ws == [] then Finished(sh, true)
      else
        var name := match o.name case None => ws[0] case Some(n) => n;
        Exec(ws[0], [if o.login then "-" + name else name] + ws[1..], if o.clear then sh.(env := map[]) else sh)
  }

  function ShExec(d: Dialect, words: seq<string>, sh: Shell): Outcome
    requires d.Sh?
  {
    if words != [] && words[0] == "--" && d.dropsDashes then
      if |words| == 1 then Finished(sh, true) else Exec(words[1], words[1..], sh)
    else if words == [] then Finished(sh, true)
    else if LooksLikeOption(words[0]) && d.refusesOptions then Finished(sh, false)
    else Exec(words[0], words, sh)
  }

  function ExecWords(d: Dialect, words: seq<string>, sh: Shell): Outcome {
    if d.Bash? then BashExec(words, sh) else ShExec(d, words, sh)
  }

  // ----- running the commands -----

  function Assign(word: string): Option<EnvVar> {
    match IndexOf(word, '=')
    case None => None
    case Some(p) => if IsName(word[..p]) then Some(EnvVar(word[..p], word[p + 1..])) else None
  }

  /** `ok` is the status so far; a guarded command is skipped, and keeps it, when it is not zero. A
      variable the shell keeps is exported by bash with its own value, as a failed command; a plain
      `sh` gives up there. */
  function Run(cs: seq<Simple>, sh: Shell, ok: bool, g: Guest): Outcome {
    if cs == [] then Finished(sh, ok)
    else if cs[0].guarded && !ok then Run(cs[1..], sh, ok, g)
    else
      var w := cs[0].words;
      if |w| == 2 && w[0] == "cd" && "/" <= w[1] then
        if g.canEnter(w[1]) then Run(cs[1..], Enter(g, sh, w[1]), true, g) else Run(cs[1..], sh, false, g)
      else if |w| == 2 && w[0] == "export" && Assign(w[1]).Some? then
        var e := Assign(w[1]).value;
        if e.key !in g.held then Run(cs[1..], sh.(env := sh.env[e.key := e.value]), true, g)
        else if g.dialect.Bash? then Run(cs[1..], sh.(env := sh.env[e.key := g.held[e.key]]), false, g)
        else Finished(sh, false)
      else if |w| > 1 && w[0] == "exec" && cs[1..] == [] then ExecWords(g.dialect, w[1..], sh)
      else Unsupported
  }

  function RunScript(script: string, sh: Shell, g: Guest): Outcome {
    match Scan(script, Between)
    case None => Unsupported
    case Some(tokens) =>
      match Commands(tokens, false, [])
      case None => Unsupported
      case Some(cs) => Run(cs, sh, true, g)
  }

  // ----- the tokens of the inner script -----

  function ExportTokens(env: seq<EnvVar>): seq<Token> {
    if env == [] then []
    else [Word("export"), Word(EnvKey(env[0].key) + "=" + env[0].value), Operator(";")] + ExportTokens(env[1..])
  }

  lemma InvalidNameIsName()
    ensures IsName("STATIX_INVALID_ENV")
  {
  }

  /** Whatever the key, what is exported is a shell name, and needs no quoting. */
  lemma EnvKeyIsPlain(key: string)
    ensures IsName(EnvKey(key)) && AllPlain(EnvKey(key) + "=") && '=' !in EnvKey(key)
  {
    InvalidNameIsName();
    NameIsPlain(EnvKey(key));
  }

  lemma NameIsPlain(k: string)
    requires IsName(k)
    ensures AllPlain(k + "=") && '=' !in k
  {
    forall i | 0 <= i < |k| ensures IsPlain(k[i]) && k[i] != '=' { assert IsNameChar(k[i]); }
  }

  function ExportItems(e: EnvVar): seq<Item> {
    [Arg("export", None), Blank, Arg(EnvKey(e.key) + "=", Some(e.value)), Op(";")]
  }

  lemma AssignmentScript(e: EnvVar, word: Item)
    requires word == Arg(EnvKey(e.key) + "=", Some(e.value))
    ensures Script([word], EnvKey(e.key) + "=" + Escape(e.value), [Word(EnvKey(e.key) + "=" + e.value)])
  {
    EnvKeyIsPlain(e.key);
    Single(word);
  }

  lemma ExportScript(e: EnvVar)
    ensures Script(ExportItems(e), Export(e), ExportTokens([e]))
  {
    hide Escape, EnvKey, Script;
    var word := Arg(EnvKey(e.key) + "=", Some(e.value));
    var text, token := EnvKey(e.key) + "=" + Escape(e.value), Word(EnvKey(e.key) + "=" + e.value);
    AssignmentScript(e, word);
    OneLiteral("export");
    var first, semi := [Arg("export", None)], [Op(";")];
    ComposeWords(first, "export", [Word("export")], [word], text, [token]);
    Single(Op(";"));
    Compose(first + [Blank] + [word], "export" + " " + text, [Word("export")] + [token], semi, ";", [Operator(";")]);
    assert ExportItems(e) == first + [Blank] + [word] + semi;
    assert "export" + " " + text + ";" == Export(e);
    assert [e][1..] == [];
    assert ExportTokens([e]) == [Word("export")] + [token] + [Operator(";")];
  }

  /** The exports, with a blank on either side. */
  function ExportsItems(env: seq<EnvVar>): seq<Item> {
    if env == [] then []
    else if |env| == 1 then ExportItems(env[0])
    else ExportItems(env[0]) + [Blank] + ExportsItems(env[1..])
  }

  lemma {:induction false} ExportsScript(env: seq<EnvVar>)
    ensures Script(ExportsItems(env), Exports(env), ExportTokens(env))
    ensures env != [] ==> ExportsItems(env) != []
  {
    if env != [] {
      ExportScript(env[0]);
      if |env| == 1 {
        assert env == [env[0]];
      } else {
        var a, more := ExportItems(env[0]), ExportsItems(env[1..]);
        ExportsScript(env[1..]);
        Single(Blank);
        Compose(a, Export(env[0]), ExportTokens([env[0]]), [Blank], " ", []);
        assert (a + [Blank])[|a|] == Blank;
        Compose(a + [Blank], Export(env[0]) + " ", ExportTokens([env[0]]) + [], more, Exports(env[1..]), ExportTokens(env[1..]));
        assert ExportTokens(env) == ExportTokens([env[0]]) + [] + ExportTokens(env[1..]) by { assert [env[0]][1..] == []; }
      }
    }
  }

  function UserTokens(cwd: string, spec: CommandSpec): seq<Token> {
    [Word("cd"), Word(cwd), Operator("&&")] + (ExportTokens(spec.env) + ([Word("exec")] + Words(spec.argv)))
  }

  lemma BlankBefore(items: seq<Item>, s: string, x: seq<Token>)
    requires Script(items, s, x)
    ensures Script([Blank] + items, " " + s, x)
  {
    Single(Blank);
    Compose([Blank], " ", [], items, s, x);
    assert [] + x == x;
  }

  lemma ExecScript(argv: seq<string>)
    requires argv != []
    ensures Script([Blank] + ([Arg("exec", None)] + [Blank] + Args(argv)), " exec " + Join(argv), [Word("exec")] + Words(argv))
  {
    OneLiteral("exec");
    JoinIsArgs(argv);
    ComposeWords([Arg("exec", None)], "exec", [Word("exec")], Args(argv), Join(argv), Words(argv));
    BlankBefore([Arg("exec", None)] + [Blank] + Args(argv), "exec" + " " + Join(argv), [Word("exec")] + Words(argv));
    ExecText(Join(argv));
  }

  lemma ExecText(args: string)
    ensures " " + ("exec" + " " + args) == " exec " + args
  {
  }

  lemma CdScript(cwd: string)
    ensures Script([Arg("cd", None)] + [Blank] + [Arg("", Some(cwd))] + SeparatorItems(AndIf),
                   "cd " + Escape(cwd) + " && ", [Word("cd")] + [Word(cwd)] + [Operator("&&")])
  {
    OneLiteral("cd");
    OneArg(cwd);
    var c := [Arg("cd", None)] + [Blank] + [Arg("", Some(cwd))];
    ComposeWords([Arg("cd", None)], "cd", [Word("cd")], [Arg("", Some(cwd))], Escape(cwd), [Word(cwd)]);
    ComposeClause(c, "cd " + Escape(cwd), [Word("cd")] + [Word(cwd)], AndIf);
  }

  /** The inner shell reads exactly the directory, the assignments and the arguments. */
  lemma UserCommandScans(cwd: string, spec: CommandSpec)
    requires spec.argv != []
    ensures Scan(UserCommand(cwd, spec), Between) == Some(UserTokens(cwd, spec))
  {
    var cd := [Arg("cd", None)] + [Blank] + [Arg("", Some(cwd))] + SeparatorItems(AndIf);
    var ex := [Blank] + ([Arg("exec", None)] + [Blank] + Args(spec.argv));
    var s, x := "cd " + Escape(cwd) + " && ", [Word("cd")] + [Word(cwd)] + [Operator("&&")];
    CdScript(cwd);
    ExecScript(spec.argv);
    assert ex[0] == Blank && cd[|cd| - 1] == Blank;
    AroundExports(cd, s, x, spec.env, ex, " exec " + Join(spec.argv), [Word("exec")] + Words(spec.argv));
    assert s + Exports(spec.env) + (" exec " + Join(spec.argv)) == UserCommand(cwd, spec);
    assert x + (ExportTokens(spec.env) + ([Word("exec")] + Words(spec.argv))) == UserTokens(cwd, spec);
  }

  lemma AroundExports(a: seq<Item>, s: string, x: seq<Token>, env: seq<EnvVar>, b: seq<Item>, t: string, y: seq<Token>)
    requires Script(a, s, x) && Script(b, t, y) && a != [] && a[|a| - 1] == Blank && b != [] && b[0] == Blank
    ensures Scan(s + Exports(env) + t, Between) == Some(x + (ExportTokens(env) + y))
  {
    var es := ExportsItems(env);
    ExportsScript(env);
    Compose(es, Exports(env), ExportTokens(env), b, t, y);
    Compose(a, s, x, es + b, Exports(env) + t, ExportTokens(env) + y);
    ScriptReads(a + (es + b), s + (Exports(env) + t), x + (ExportTokens(env) + y));
    Assoc(s, Exports(env), t);
  }

  // ----- the commands of the inner script -----

  lemma {:induction false} CommandsOfWords(vs: seq<string>, rest: seq<Token>, guarded: bool, acc: seq<string>)
    ensures Commands(Words(vs) + rest, guarded, acc) == Commands(rest, guarded, acc + vs)
  {
    if vs == [] {
      assert Words(vs) + rest == rest && acc + vs == acc;
    } else {
      assert (Words(vs) + rest)[1..] == Words(vs[1..]) + rest;
      CommandsOfWords(vs[1..], rest, guarded, acc + [vs[0]]);
      assert acc + [vs[0]] + vs[1..] == acc + vs;
    }
  }

  /** Words up to a separator are one command. */
  lemma OneCommand(vs: seq<string>, symbol: string, rest: seq<Token>, guarded: bool)
    requires vs != [] && symbol in [";", "&&"]
    ensures Commands(Words(vs) + ([Operator(symbol)] + rest), guarded, [])
         == ConsCommand(Simple(guarded, vs), Commands(rest, symbol == "&&", []))
  {
    CommandsOfWords(vs, [Operator(symbol)] + rest, guarded, []);
    assert [] + vs == vs && ([Operator(symbol)] + rest)[1..] == rest;
  }

  lemma TwoWords(a: string, b: string)
    ensures Words([a, b]) == [Word(a), Word(b)]
  {
    assert [a, b][1..] == [b] && [b][1..] == [];
    assert Words([b]) == [Word(b)];
  }

  function ExportWords(e: EnvVar): seq<string> { ["export", EnvKey(e.key) + "=" + e.value] }

  function ExportCommands(env: seq<EnvVar>, guarded: bool): seq<Simple> {
    if env == [] then [] else [Simple(guarded, ExportWords(env[0]))] + ExportCommands(env[1..], false)
  }

  lemma {:induction false} CommandsOfExports(env: seq<EnvVar>, guarded: bool, tail: seq<Token>, cs: seq<Simple>)
    requires Commands(tail, guarded && env == [], []) == Some(cs)
    ensures Commands(ExportTokens(env) + tail, guarded, []) == Some(ExportCommands(env, guarded) + cs)
  {
    if env == [] {
      assert ExportTokens(env) + tail == tail && ExportCommands(env, guarded) + cs == cs;
    } else {
      var rest := ExportTokens(env[1..]) + tail;
      CommandsOfExports(env[1..], false, tail, cs);
      FirstExport(env, tail);
      OneCommand(ExportWords(env[0]), ";", rest, guarded);
      Assoc([Simple(guarded, ExportWords(env[0]))], ExportCommands(env[1..], false), cs);
    }
  }

  lemma ExportTokensOf(e: EnvVar)
    ensures [Word("export"), Word(EnvKey(e.key) + "=" + e.value), Operator(";")] == Words(ExportWords(e)) + [Operator(";")]
  {
    hide EnvKey;
    TwoWords("export", EnvKey(e.key) + "=" + e.value);
  }

  lemma FirstExport(env: seq<EnvVar>, tail: seq<Token>)
    requires env != []
    ensures ExportTokens(env) + tail
         == Words(ExportWords(env[0])) + ([Operator(";")] + (ExportTokens(env[1..]) + tail))
  {
    ExportTokensOf(env[0]);
    hide EnvKey, Words, ExportWords;
    Assoc(Words(ExportWords(env[0])), [Operator(";")], ExportTokens(env[1..]));
    Assoc(Words(ExportWords(env[0])), [Operator(";")] + ExportTokens(env[1..]), tail);
    Assoc([Operator(";")], ExportTokens(env[1..]), tail);
  }

  function UserCommands(cwd: string, spec: CommandSpec): seq<Simple> {
    [Simple(false, ["cd", cwd])] + (ExportCommands(spec.env, true) + [Simple(spec.env == [], ["exec"] + spec.argv)])
  }

  lemma ExecCommand(argv: seq<string>, guarded: bool)
    ensures Commands([Word("exec")] + Words(argv), guarded, []) == Some([Simple(guarded, ["exec"] + argv)])
  {
    var exec, ts := ["exec"] + argv, [Word("exec")] + Words(argv);
    assert exec[1..] == argv && Words(exec) == ts && ts + [] == ts;
    CommandsOfWords(exec, [], guarded, []);
    assert [] + exec == exec;
  }

  lemma TokensInParts(cwd: string, spec: CommandSpec)
    ensures UserTokens(cwd, spec)
         == Words(["cd", cwd]) + ([Operator("&&")] + (ExportTokens(spec.env) + ([Word("exec")] + Words(spec.argv))))
  {
    TwoWords("cd", cwd);
  }

  /** `&&` guards the first export, or `exec` itself when there is nothing to export. */
  lemma UserCommandsParse(cwd: string, spec: CommandSpec)
    ensures Commands(UserTokens(cwd, spec), false, []) == Some(UserCommands(cwd, spec))
  {
    var last := [Word("exec")] + Words(spec.argv);
    ExecCommand(spec.argv, spec.env == []);
    TokensInParts(cwd, spec);
    hide Commands, Words, UserTokens, ExportTokens, ExportCommands;
    CommandsOfExports(spec.env, true, last, [Simple(spec.env == [], ["exec"] + spec.argv)]);
    OneCommand(["cd", cwd], "&&", ExportTokens(spec.env) + last, false);
  }

  // ----- running it -----

  function Exported(env: map<string, string>, vars: seq<EnvVar>): map<string, string>
    decreases vars
  {
    if vars == [] then env else Exported(env[EnvKey(vars[0].key) := vars[0].value], vars[1..])
  }

  lemma AssignReads(e: EnvVar)
    ensures Assign(EnvKey(e.key) + "=" + e.value) == Some(EnvVar(EnvKey(e.key), e.value))
  {
    var k := EnvKey(e.key);
    EnvKeyIsPlain(e.key);
    var w := k + ['='] + e.value;
    assert k + "=" + e.value == w;
    IndexOfFirst(k, '=', e.value);
    assert w[..|k|] == k && w[|k| + 1..] == e.value;
  }

  /** Every `export` in turn: the environment, and whether the shell is still there. */
  function ExportAll(g: Guest, env: map<string, string>, vars: seq<EnvVar>): (map<string, string>, bool)
    decreases vars
  {
    if vars == [] then (env, true)
    else
      var key := EnvKey(vars[0].key);
      if key !in g.held then ExportAll(g, env[key := vars[0].value], vars[1..])
      else if g.dialect.Bash? then ExportAll(g, env[key := g.held[key]], vars[1..])
      else (env, false)
  }

  /** The status of the last `export`. */
  function LastStatus(g: Guest, vars: seq<EnvVar>, ok: bool): bool {
    if vars == [] then ok else EnvKey(vars[|vars| - 1].key) !in g.held
  }

  /** The exports, and then `exec`. */
  function Start(spec: CommandSpec, vars: seq<EnvVar>, sh: Shell, g: Guest): Outcome {
    var (env, going) := ExportAll(g, sh.env, vars);
    if going then ExecWords(g.dialect, spec.argv, sh.(env := env)) else Finished(sh.(env := env), false)
  }

  /** After the exports: the rest, unless the shell gave up. */
  function Then(g: Guest, vars: seq<EnvVar>, cs: seq<Simple>, sh: Shell, ok: bool): Outcome {
    var (env, going) := ExportAll(g, sh.env, vars);
    if going then Run(cs, sh.(env := env), LastStatus(g, vars, ok), g) else Finished(sh.(env := env), false)
  }

  /** What follows one `export`. */
  function AfterExport(key: string, value: string, rest: seq<Simple>, sh: Shell, g: Guest): Outcome {
    if key !in g.held then Run(rest, sh.(env := sh.env[key := value]), true, g)
    else if g.dialect.Bash? then Run(rest, sh.(env := sh.env[key := g.held[key]]), false, g)
    else Finished(sh, false)
  }

  lemma OneExport(e: EnvVar, guarded: bool, cs: seq<Simple>, sh: Shell, ok: bool, g: Guest)
    requires cs != [] && cs[0] == Simple(guarded, ExportWords(e)) && (guarded ==> ok)
    ensures Run(cs, sh, ok, g) == AfterExport(EnvKey(e.key), e.value, cs[1..], sh, g)
  {
    AssignReads(e);
    hide EnvKey, Assign;
  }

  lemma {:induction false} RunExports(vars: seq<EnvVar>, guarded: bool, cs: seq<Simple>, sh: Shell, ok: bool, g: Guest)
    requires guarded ==> ok
    ensures Run(ExportCommands(vars, guarded) + cs, sh, ok, g) == Then(g, vars, cs, sh, ok)
  {
    hide EnvKey, ExportWords;
    var all := ExportCommands(vars, guarded) + cs;
    if vars == [] {
      assert all == cs;
    } else {
      var e, key := vars[0], EnvKey(vars[0].key);
      assert all[1..] == ExportCommands(vars[1..], false) + cs;
      OneExport(e, guarded, all, sh, ok, g);
      hide Run;
      if key !in g.held {
        RunExports(vars[1..], false, cs, sh.(env := sh.env[key := e.value]), true, g);
      } else if g.dialect.Bash? {
        RunExports(vars[1..], false, cs, sh.(env := sh.env[key := g.held[key]]), false, g);
      }
    }
  }

  lemma RunExec(guarded: bool, argv: seq<string>, sh: Shell, ok: bool, g: Guest)
    requires argv != [] && (guarded ==> ok)
    ensures Run([Simple(guarded, ["exec"] + argv)], sh, ok, g) == ExecWords(g.dialect, argv, sh)
  {
    hide ExecWords;
    var cs, w := [Simple(guarded, ["exec"] + argv)], ["exec"] + argv;
    assert w[1..] == argv && cs[1..] == [];
  }

  function LastCommand(spec: CommandSpec): seq<Simple> { [Simple(spec.env == [], ["exec"] + spec.argv)] }

  lemma ThenExec(spec: CommandSpec, vars: seq<EnvVar>, sh: Shell, ok: bool, g: Guest)
    requires spec.argv != [] && (spec.env == [] ==> LastStatus(g, vars, ok))
    ensures Then(g, vars, LastCommand(spec), sh, ok) == Start(spec, vars, sh, g)
  {
    hide ExecWords, Run, LastStatus;
    var (env, going) := ExportAll(g, sh.env, vars);
    if going { RunExec(spec.env == [], spec.argv, sh.(env := env), LastStatus(g, vars, ok), g); }
  }

  lemma RunsCommands(cwd: string, spec: CommandSpec, sh: Shell, g: Guest)
    requires spec.argv != [] && "/" <= cwd
    ensures RunScript(UserCommand(cwd, spec), sh, g)
         == Run(ExportCommands(spec.env, true) + LastCommand(spec), if g.canEnter(cwd) then Enter(g, sh, cwd) else sh,
                g.canEnter(cwd), g)
  {
    UserCommandScans(cwd, spec);
    UserCommandsParse(cwd, spec);
    hide Scan, Commands, UserCommand, UserTokens, ExportCommands, LastCommand;
    var cs := UserCommands(cwd, spec);
    var rest := ExportCommands(spec.env, true) + LastCommand(spec);
    CdThenRest(cwd, spec, cs, rest);
    assert cs[0].words == ["cd", cwd] && !cs[0].guarded && cs[1..] == rest;
  }

  lemma CdThenRest(cwd: string, spec: CommandSpec, cs: seq<Simple>, rest: seq<Simple>)
    requires cs == UserCommands(cwd, spec) && rest == ExportCommands(spec.env, true) + LastCommand(spec)
    ensures cs == [Simple(false, ["cd", cwd])] + rest
  {
  }

  /** When the directory can be entered: the original argument vector goes to `exec` there, after all
      the exports. */
  lemma RunsAfterCd(cwd: string, spec: CommandSpec, sh: Shell, g: Guest)
    requires spec.argv != [] && "/" <= cwd && g.canEnter(cwd)
    ensures RunScript(UserCommand(cwd, spec), sh, g) == Start(spec, spec.env, Enter(g, sh, cwd), g)
  {
    RunsCommands(cwd, spec, sh, g);
    hide RunScript, Run, Then, Start, Enter;
    RunExports(spec.env, true, LastCommand(spec), Enter(g, sh, cwd), true, g);
    ThenExec(spec, spec.env, Enter(g, sh, cwd), true, g);
  }

  /** When it cannot: `&&` holds back only what directly follows it. With no variables the command
      does not start; otherwise it starts in the old directory, lacking the first variable. */
  lemma RunsDespiteCd(cwd: string, spec: CommandSpec, sh: Shell, g: Guest)
    requires spec.argv != [] && "/" <= cwd && !g.canEnter(cwd)
    ensures RunScript(UserCommand(cwd, spec), sh, g)
         == if spec.env == [] then Finished(sh, false) else Start(spec, spec.env[1..], sh, g)
  {
    RunsCommands(cwd, spec, sh, g);
    hide RunScript;
    RestAfterFailedCd(spec, sh, g);
  }

  lemma RestAfterFailedCd(spec: CommandSpec, sh: Shell, g: Guest)
    requires spec.argv != []
    ensures Run(ExportCommands(spec.env, true) + LastCommand(spec), sh, false, g)
         == if spec.env == [] then Finished(sh, false) else Start(spec, spec.env[1..], sh, g)
  {
    hide Start, Then, ExecWords, Assign;
    var all := ExportCommands(spec.env, true) + LastCommand(spec);
    if spec.env == [] {
      assert all == LastCommand(spec) && all[1..] == [];
    } else {
      var left := spec.env[1..];
      assert all[1..] == ExportCommands(left, false) + LastCommand(spec) && all[0].guarded;
      RunExports(left, false, LastCommand(spec), sh, false, g);
      ThenExec(spec, left, sh, false, g);
    }
  }

  // ----- which words `exec` runs as they are -----

  /** The first word is a plain operand of `exec`. */
  predicate IsOperand(d: Dialect, word: string) {
    !LooksLikeOption(word) || (d.Sh? && !d.refusesOptions && !(word == "--" && d.dropsDashes))
  }

  lemma {:induction false} OptionsShorten(words: seq<string>, o: Options)
    ensures BashOptions(words, o).Operands? ==>
              |BashOptions(words, o).words| + (if words != [] && LooksLikeOption(words[0]) then 1 else 0) <= |words|
    decreases |words|, 0
  {
    if words != [] && LooksLikeOption(words[0]) && words[0] != "--" { LettersShorten(words[0][1..], words[1..], o); }
  }

  lemma {:induction false} LettersShorten(letters: string, rest: seq<string>, o: Options)
    ensures BashLetters(letters, rest, o).Operands? ==> |BashLetters(letters, rest, o).words| <= |rest|
    decreases |rest|, |letters| + 1
  {
    if letters == [] { OptionsShorten(rest, o); }
    else if letters[0] == 'c' { LettersShorten(letters[1..], rest, o.(clear := true)); }
    else if letters[0] == 'l' { LettersShorten(letters[1..], rest, o.(login := true)); }
    else if letters[0] == 'a' && |letters| > 1 { OptionsShorten(rest, o.(name := Some(letters[1..]))); }
    else if letters[0] == 'a' && rest != [] { OptionsShorten(rest[1..], o.(name := Some(rest[0]))); }
  }

  /** `exec` runs exactly the given words if and only if the first is a plain operand; any option it
      takes shortens the argument vector. */
  lemma ExecIsExact(d: Dialect, words: seq<string>, sh: Shell)
    requires words != []
    ensures (ExecWords(d, words, sh).Exec? && ExecWords(d, words, sh).argv == words) <==> IsOperand(d, words[0])
    ensures IsOperand(d, words[0]) ==> ExecWords(d, words, sh) == Exec(words[0], words, sh)
  {
    if d.Bash? {
      OptionsShorten(words, Options(false, false, None));
      assert [words[0]] + words[1..] == words;
    }
  }

  // ----- what validation is for -----

  lemma {:induction false} CheckKeysFacts(env: seq<EnvVar>)
    ensures CheckKeys(env) == Valid <==> forall e :: e in env ==> IsName(e.key)
  {
    if env != [] {
      CheckKeysFacts(env[1..]);
      assert env == [env[0]] + env[1..];
    }
  }

  /** `[A-Za-z_][A-Za-z0-9_]*` */
  predicate ShellName(key: string) {
    && |key| > 0 && !('0' <= key[0] <= '9')
    && forall i :: 0 <= i < |key| ==> key[i] == '_' || '0' <= key[i] <= '9' || 'A' <= key[i] <= 'Z' || 'a' <= key[i] <= 'z'
  }

  lemma NameExactly(key: string)
    ensures IsName(key) <==> ShellName(key)
    ensures EnvKey(key) == key <==> ShellName(key)
  {
    InvalidNameIsName();
  }

  lemma {:induction false} FirstInvalidKey(env: seq<EnvVar>, key: string)
    ensures CheckKeys(env) == InvalidKey(key)
       <==> exists i :: && 0 <= i < |env| && env[i].key == key && !ShellName(key)
                        && forall j :: 0 <= j < i ==> ShellName(env[j].key)
  {
    if env != [] {
      var rest := env[1..];
      NameExactly(env[0].key);
      hide IsName, ShellName;
      FirstInvalidKey(rest, key);
      if i :| 0 <= i < |rest| && rest[i].key == key && !ShellName(key) && forall j :: 0 <= j < i ==> ShellName(rest[j].key) {
        if ShellName(env[0].key) {
          assert env[i + 1].key == key;
          forall j | 0 <= j < i + 1 ensures ShellName(env[j].key) { if j > 0 { assert env[j] == rest[j - 1]; } }
        }
      }
      if i :| 0 < i < |env| && env[i].key == key && !ShellName(key) && forall j :: 0 <= j < i ==> ShellName(env[j].key) {
        assert rest[i - 1].key == key;
        forall j | 0 <= j < i - 1 ensures ShellName(rest[j].key) { assert rest[j] == env[j + 1]; }
      }
    }
  }

  lemma {:induction false} AllSpace(s: string)
    ensures Trim(IsWhitespace, s) == [] <==> forall i :: 0 <= i < |s| ==> IsWhitespace(s[i])
  {
    hide IsWhitespace;
    var lo, hi := TrimIsSlice(IsWhitespace, s);
    if lo < hi { assert !IsWhitespace(s[lo]); }
  }

  /** A command is valid exactly when its program is not blank and every key is a shell name; otherwise
      the empty program is reported first, and then the first bad key. */
  lemma ValidatesExactly(spec: CommandSpec)
    ensures var empty := spec.argv == [] || forall i :: 0 <= i < |spec.argv[0]| ==> IsWhitespace(spec.argv[0][i]);
            && (Validate(spec) == Valid <==> !empty && forall e :: e in spec.env ==> ShellName(e.key))
            && (Validate(spec) == EmptyCommand <==> empty)
            && forall key :: Validate(spec) == InvalidKey(key)
                 <==> !empty && exists i :: && 0 <= i < |spec.env| && spec.env[i].key == key && !ShellName(key)
                                            && forall j :: 0 <= j < i ==> ShellName(spec.env[j].key)
  {
    if spec.argv != [] { AllSpace(spec.argv[0]); }
    CheckKeysFacts(spec.env);
    forall e | e in spec.env ensures IsName(e.key) <==> ShellName(e.key) { NameExactly(e.key); }
    forall key ensures CheckKeys(spec.env) == InvalidKey(key)
                  <==> exists i :: && 0 <= i < |spec.env| && spec.env[i].key == key && !ShellName(key)
                                   && forall j :: 0 <= j < i ==> ShellName(spec.env[j].key)
    {
      FirstInvalidKey(spec.env, key);
    }
    NeverEmpty(spec.env);
    hide IsName, ShellName, IsWhitespace, CheckKeys, Trim;
  }

  lemma {:induction false} NeverEmpty(env: seq<EnvVar>)
    ensures CheckKeys(env) != EmptyCommand
  {
    if env != [] { NeverEmpty(env[1..]); }
  }

  lemma {:induction false} ExportedFacts(env: map<string, string>, vars: seq<EnvVar>)
    requires DistinctKeys(vars) && forall e :: e in vars ==> IsName(e.key)
    ensures var r := Exported(env, vars);
            && (forall e :: e in vars ==> e.key in r && r[e.key] == e.value)
            && (forall k :: (forall e :: e in vars ==> e.key != k) ==> (k in r <==> k in env) && (k in env ==> r[k] == env[k]))
    decreases vars
  {
    if vars != [] {
      var v, rest := vars[0], vars[1..];
      assert v in vars && EnvKey(v.key) == v.key;
      assert vars == [v] + rest;
      ExportedFacts(env[v.key := v.value], rest);
      forall e | e in rest ensures e.key != v.key {
        var i :| 0 <= i < |rest| && rest[i] == e;
        assert vars[i + 1] == e;
      }
    }
  }

  /** Nothing the command exports is a variable the shell keeps, except, in bash, at its own value. */
  ghost predicate NothingHeld(g: Guest, vars: seq<EnvVar>) {
    forall e :: e in vars && e.key in g.held ==> g.dialect.Bash? && g.held[e.key] == e.value
  }

  lemma {:induction false} HeldFacts(g: Guest, env: map<string, string>, vars: seq<EnvVar>)
    requires DistinctKeys(vars) && forall e :: e in vars ==> IsName(e.key)
    ensures ExportAll(g, env, vars) == (Exported(env, vars), true) <==> NothingHeld(g, vars)
    decreases vars
  {
    if vars != [] {
      var v, rest := vars[0], vars[1..];
      assert v in vars && EnvKey(v.key) == v.key;
      assert vars == [v] + rest;
      if v.key !in g.held || (g.dialect.Bash? && g.held[v.key] == v.value) {
        HeldFacts(g, env[v.key := v.value], rest);
      } else if g.dialect.Bash? {
        KeptValue(g, env[v.key := g.held[v.key]], rest, v.key);
        ExportedFacts(env, vars);
      }
    }
  }

  /** A variable not exported again keeps its value. */
  lemma {:induction false} KeptValue(g: Guest, env: map<string, string>, vars: seq<EnvVar>, key: string)
    requires key in env && forall e :: e in vars ==> IsName(e.key) && e.key != key
    ensures key in ExportAll(g, env, vars).0 && ExportAll(g, env, vars).0[key] == env[key]
    decreases vars
  {
    if vars != [] {
      var v, rest := vars[0], vars[1..];
      assert v in vars && EnvKey(v.key) == v.key && vars == [v] + rest;
      if v.key !in g.held {
        KeptValue(g, env[v.key := v.value], rest, key);
      } else if g.dialect.Bash? {
        KeptValue(g, env[v.key := g.held[v.key]], rest, key);
      }
    }
  }

  // The fixed words need no quoting.

  lemma LxcWordsArePlain()
    ensures PlainWords(["rm", "-rf", DOCKER_DIR])
    ensures PlainWords(["mkdir", "-p", DOCKER_DIR])
  {
  }

  lemma ChownIsPlain()
    ensures PlainWords(["chown", "-R", "statix:statix", DOCKER_DIR])
  {
  }

  lemma TarWordsArePlain()
    ensures PlainWords(["tar", "-xzf", "/tmp/statix-workspace.tar.gz", "-C", DOCKER_DIR])
  {
    assert AllPlain("/tmp/statix-workspace.tar.gz");
    assert AllPlain(DOCKER_DIR);
  }

  lemma MicrovmTarIsPlain()
    ensures PlainWords(["tar", "-xzf", "/home/statix/workspace.tar.gz", "-C", DOCKER_DIR])
  {
  }

  lemma ShellWordsArePlain()
    ensures PlainWords(LXC_SHELL) && PlainWords(MICROVM_SHELL)
  {
  }

  lemma DockerCheckIsPlain()
    ensures PlainWords(["set", "-e"])
    ensures PlainWords(["if", "!", "command", "-v", "docker"])
    ensures PlainWords(["/dev/null", "2"]) && PlainWords(["1"])
    ensures PlainWords(["!", "sudo", "docker", "info"])
    ensures PlainWords(["then", "sudo", "apt-get", "update"])
  {
  }

  lemma InstallIsPlain()
    ensures PlainWords(["sudo", "env", "DEBIAN_FRONTEND=noninteractive", "apt-get", "install", "-y", "docker.io",
                        "docker-compose-v2", "curl"])
  {
    assert AllPlain("DEBIAN_FRONTEND=noninteractive") && AllPlain("docker-compose-v2");
  }

  lemma EnableIsPlain()
    ensures PlainWords(["sudo", "systemctl", "enable", "--now", "docker"]) && PlainWords(["fi"])
  {
  }

  lemma GroupIsPlain()
    ensures PlainWords(["sudo", "usermod", "--append", "--groups", "docker", "statix"])
  {
  }

  lemma OwnershipIsPlain()
    ensures PlainWords(["sudo", "chown", "-R", "statix:statix", DOCKER_DIR])
  {
  }

  lemma InstallDirIsPlain()
    ensures PlainWords(["sudo", "install", "-d", "-o", "statix", "-g", "statix", "-m", "0755", DOCKER_DIR])
  {
  }

  lemma FindIsPlain()
    ensures PlainWords(["find", DOCKER_DIR, "-mindepth", "1", "-maxdepth", "1", "-exec", "rm", "-rf", "--", "{}", "+"])
  {
  }

  lemma ClausesArePlain(r: Runner)
    ensures PlainClauses(Clauses(r)) && PlainWords(ShellWordsOf(r)) && ShellWordsOf(r) != []
  {
    ShellWordsArePlain();
    if r.Lxc? {
      LxcWordsArePlain();
      ChownIsPlain();
      TarWordsArePlain();
    } else {
      MicrovmTarIsPlain();
      DockerCheckIsPlain();
      InstallIsPlain();
      EnableIsPlain();
      GroupIsPlain();
      OwnershipIsPlain();
      InstallDirIsPlain();
      FindIsPlain();
    }
  }

  // ----- the workspace -----

  type Files = map<string, string>

  /** The docker directory: whether it is there, and what is in it. */
  datatype Place = Place(present: bool, files: Files)

  /** What one command of the preparation does to the docker directory; `archives` are the uploaded files. */
  function Prepare(words: seq<string>, archives: map<string, Files>, p: Place): Option<Place> {
    if words == ["rm", "-rf", "/home/statix/docker"] then Some(Place(false, map[]))
    else if words == ["mkdir", "-p", "/home/statix/docker"] then Some(p.(present := true))
    else if |words| == 10 && words[..3] == ["sudo", "install", "-d"] && words[9] == "/home/statix/docker" then Some(p.(present := true))
    else if words == ["find", "/home/statix/docker", "-mindepth", "1", "-maxdepth", "1", "-exec", "rm", "-rf", "--", "{}", "+"] then
      Some(p.(files := map[]))
    else if |words| == 5 && words[0] == "tar" && words[1] == "-xzf" && words[3] == "-C" && words[4] == "/home/statix/docker" then
      if p.present && words[2] in archives then Some(p.(files := p.files + archives[words[2]])) else None
    else Some(p)
  }

  function PrepareAll(cs: seq<Clause>, archives: map<string, Files>, p: Place): Option<Place> {
    if cs == [] then Some(p)
    else match Prepare(cs[0].words, archives, p) case None => None case Some(q) => PrepareAll(cs[1..], archives, q)
  }

  /** Where each runner uploads the workspace. */
  function Archive(r: Runner): string {
    match r case Lxc => "/tmp/statix-workspace.tar.gz" case Microvm => "/home/statix/workspace.tar.gz"
  }

  lemma NextClause(cs: seq<Clause>, k: nat, archives: map<string, Files>, p: Place, q: Place)
    requires k < |cs| && Prepare(cs[k].words, archives, p) == Some(q)
    ensures PrepareAll(cs[k..], archives, p) == PrepareAll(cs[k + 1..], archives, q)
  {
    assert cs[k..][1..] == cs[k + 1..];
  }

  lemma {:induction false} SkipClauses(cs: seq<Clause>, k: nat, n: nat, archives: map<string, Files>, p: Place)
    requires k <= n <= |cs| && forall i :: k <= i < n ==> Prepare(cs[i].words, archives, p) == Some(p)
    ensures PrepareAll(cs[k..], archives, p) == PrepareAll(cs[n..], archives, p)
    decreases n - k
  {
    hide Prepare;
    if k < n {
      NextClause(cs, k, archives, p, p);
      SkipClauses(cs, k + 1, n, archives, p);
    }
  }

  lemma Unpacked(words: seq<string>, archives: map<string, Files>, path: string)
    requires words == ["tar", "-xzf", path, "-C", "/home/statix/docker"] && path in archives
    ensures Prepare(words, archives, Place(true, map[])) == Some(Place(true, archives[path]))
  {
    assert map[] + archives[path] == archives[path];
  }

  lemma LxcPrepares(archives: map<string, Files>, p: Place)
    requires Archive(Lxc) in archives
    ensures PrepareAll(LXC_CLAUSES, archives, p) == Some(Place(true, archives[Archive(Lxc)]))
  {
    var cs, empty, full := LXC_CLAUSES, Place(true, map[]), Place(true, archives[Archive(Lxc)]);
    assert cs[0..] == cs;
    assert Prepare(cs[0].words, archives, p) == Some(Place(false, map[]));
    assert Prepare(cs[1].words, archives, Place(false, map[])) == Some(empty);
    Unpacked(cs[2].words, archives, Archive(Lxc));
    assert Prepare(cs[3].words, archives, full) == Some(full);
    hide Prepare;
    NextClause(cs, 0, archives, p, Place(false, map[]));
    NextClause(cs, 1, archives, Place(false, map[]), empty);
    NextClause(cs, 2, archives, empty, full);
    NextClause(cs, 3, archives, full, full);
  }

  lemma MicrovmPrepares(archives: map<string, Files>, p: Place)
    requires Archive(Microvm) in archives
    ensures PrepareAll(MICROVM_CLAUSES, archives, p) == Some(Place(true, archives[Archive(Microvm)]))
  {
    var cs, empty, full := MICROVM_CLAUSES, Place(true, map[]), Place(true, archives[Archive(Microvm)]);
    assert cs[0..] == cs;
    forall i | 0 <= i < 12 ensures Prepare(cs[i].words, archives, p) == Some(p) {}
    assert Prepare(cs[12].words, archives, p) == Some(p.(present := true));
    assert Prepare(cs[13].words, archives, p.(present := true)) == Some(empty);
    Unpacked(cs[14].words, archives, Archive(Microvm));
    assert Prepare(cs[15].words, archives, full) == Some(full);
    hide Prepare;
    SkipClauses(cs, 0, 12, archives, p);
    NextClause(cs, 12, archives, p, p.(present := true));
    NextClause(cs, 13, archives, p.(present := true), empty);
    NextClause(cs, 14, archives, empty, full);
    NextClause(cs, 15, archives, full, full);
  }

  /** Whatever was in the docker directory, and whether or not there was one: before the user's command
      it holds exactly what the runner's uploaded archive does. The command runs in a login shell of the
      unprivileged user in a container, and under the docker group in a microVM. */
  lemma WorkspaceIsFresh(r: Runner, archives: map<string, Files>, p: Place)
    requires Archive(r) in archives
    ensures PrepareAll(Clauses(r), archives, p) == Some(Place(true, archives[Archive(r)]))
    ensures ShellWordsOf(r) == if r.Lxc? then ["su", "-s", "/bin/bash", "-", "statix", "-c"] else ["sg", "docker", "-c"]
  {
    match r
    case Lxc => LxcPrepares(archives, p);
    case Microvm => MicrovmPrepares(archives, p);
  }

  // ----- the whole way through both shells -----

  /** The guest's shell reads the whole user command as one word: the operand of `-c`. */
  lemma GuestShellReadsOneWord(r: Runner, spec: CommandSpec)
    requires WorkDir(spec).Some?
    ensures Scan(Compile(r, spec).value, Between)
         == Some(PrefixTokens(Clauses(r)) + (Words(ShellWordsOf(r)) + [Word(UserCommand(WorkDir(spec).value, spec))]))
  {
    ClausesArePlain(r);
    PrefixedValueScans(Clauses(r), ShellWordsOf(r), UserCommand(WorkDir(spec).value, spec));
  }

  /** The operand the outer script hands to its inner shell. */
  function Operand(tokens: seq<Token>): Option<string> {
    if |tokens| >= 2 && tokens[|tokens| - 2] == Word("-c") && tokens[|tokens| - 1].Word?
    then Some(tokens[|tokens| - 1].text) else None
  }

  /** What a compiled script does: its last command runs a shell on the operand of `-c`. */
  function RunGuest(script: string, sh: Shell, g: Guest): Outcome {
    match Scan(script, Between)
    case None => Unsupported
    case Some(tokens) =>
      match Operand(tokens)
      case None => Unsupported
      case Some(inner) => RunScript(inner, sh, g)
  }

  lemma LastTwo(prefix: seq<Token>, ws: seq<Token>, t: Token)
    requires ws != []
    ensures var all := prefix + (ws + [t]);
            |all| >= 2 && all[|all| - 1] == t && all[|all| - 2] == ws[|ws| - 1]
  {
  }

  lemma OperandIsInner(prefix: seq<Token>, words: seq<string>, inner: string)
    requires words != [] && words[|words| - 1] == "-c"
    ensures Operand(prefix + (Words(words) + [Word(inner)])) == Some(inner)
  {
    WordsAt(words);
    hide Words;
    LastTwo(prefix, Words(words), Word(inner));
  }

  lemma {:induction false} WordsAt(vs: seq<string>)
    ensures |Words(vs)| == |vs| && forall i :: 0 <= i < |vs| ==> Words(vs)[i] == Word(vs[i])
  {
    if vs != [] { WordsAt(vs[1..]); }
  }

  lemma EndsInC(r: Runner)
    ensures var w := ShellWordsOf(r); w != [] && w[|w| - 1] == "-c"
  {
  }

  lemma GuestRunsInner(r: Runner, spec: CommandSpec, script: string, inner: string, sh: Shell, g: Guest)
    requires WorkDir(spec).Some? && inner == UserCommand(WorkDir(spec).value, spec) && Some(script) == Compile(r, spec)
    ensures RunGuest(script, sh, g) == RunScript(inner, sh, g)
  {
    GuestShellReadsOneWord(r, spec);
    EndsInC(r);
    hide Scan, RunScript, UserCommand, Compile;
    OneOperand(script, PrefixTokens(Clauses(r)), ShellWordsOf(r), inner, sh, g);
  }

  lemma OneOperand(script: string, prefix: seq<Token>, words: seq<string>, inner: string, sh: Shell, g: Guest)
    requires words != [] && words[|words| - 1] == "-c"
    requires Scan(script, Between) == Some(prefix + (Words(words) + [Word(inner)]))
    ensures RunGuest(script, sh, g) == RunScript(inner, sh, g)
  {
    OperandIsInner(prefix, words, inner);
  }

  /** `dir` is where the command asks to run: the directory it names, if that starts with the docker
      directory; the docker directory itself if it names none or the workspace. */
  predicate AsksFor(spec: CommandSpec, dir: string) {
    match spec.cwd
    case None => dir == "/home/statix/docker"
    case Some(d) => if d == "/workspace" then dir == "/home/statix/docker" else dir == d && "/home/statix/docker" <= d
  }

  /** A command is refused exactly when it asks for nothing that is allowed. */
  lemma CompilesExactly(r: Runner, spec: CommandSpec)
    ensures Compile(r, spec).Some? <==> exists dir :: AsksFor(spec, dir)
    ensures Compile(r, spec).None?
       <==> spec.cwd.Some? && spec.cwd.value != "/workspace" && !("/home/statix/docker" <= spec.cwd.value)
  {
    hide PrefixText, SpaceJoined, Escape, UserCommand, Clauses, ShellWordsOf;
    if Compile(r, spec).Some? { assert AsksFor(spec, WorkDir(spec).value); }
  }

  /** For every validated command that asks for a directory that can be entered: through both shells,
      the guest executes exactly the original argument vector in that directory with every variable
      exported under its own name and value, and all others as `cd` leaves them, if and only if the
      program name is a plain operand of the guest's `exec` and no variable is one the guest's shell
      keeps for itself. The shell is bash in a container and the guest's `sh` under `sg`; this holds for
      any. */
  lemma CommandArrivesIntact(r: Runner, spec: CommandSpec, dir: string, sh: Shell, g: Guest)
    requires Validate(spec) == Valid && DistinctKeys(spec.env)
    requires AsksFor(spec, dir) && g.canEnter(dir)
    ensures Compile(r, spec).Some?
    ensures var before := g.entered(sh.env, dir);
            var env := Exported(before, spec.env);
            && (RunGuest(Compile(r, spec).value, sh, g) == Exec(spec.argv[0], spec.argv, Shell(dir, env))
                <==> IsOperand(g.dialect, spec.argv[0]) && NothingHeld(g, spec.env))
            && (forall e :: e in spec.env ==> e.key in env && env[e.key] == e.value)
            && (forall k :: (forall e :: e in spec.env ==> e.key != k) ==> (k in env <==> k in before) && (k in before ==> env[k] == before[k]))
  {
    assert WorkDir(spec) == Some(dir);
    GuestRunsInner(r, spec, Compile(r, spec).value, UserCommand(dir, spec), sh, g);
    DirIsAbsolute(dir);
    RunsAfterCd(dir, spec, sh, g);
    CheckKeysFacts(spec.env);
    ExportedFacts(g.entered(sh.env, dir), spec.env);
    hide RunGuest, RunScript, UserCommand, Compile, WorkDir;
    StartIsExact(spec, Enter(g, sh, dir), g);
  }

  lemma StartIsExact(spec: CommandSpec, sh: Shell, g: Guest)
    requires spec.argv != [] && DistinctKeys(spec.env) && forall e :: e in spec.env ==> IsName(e.key)
    ensures Start(spec, spec.env, sh, g) == Exec(spec.argv[0], spec.argv, sh.(env := Exported(sh.env, spec.env)))
       <==> IsOperand(g.dialect, spec.argv[0]) && NothingHeld(g, spec.env)
  {
    HeldFacts(g, sh.env, spec.env);
    hide ExportAll, Exported, NothingHeld, ExecWords, IsOperand;
    var (env, going) := ExportAll(g, sh.env, spec.env);
    ExecIsExact(g.dialect, spec.argv, sh.(env := env));
  }

  lemma DirIsAbsolute(cwd: string)
    requires DOCKER_DIR <= cwd
    ensures "/" <= cwd
  {
    assert cwd[0] == DOCKER_DIR[0];
  }

  lemma AfterFailedCd(r: Runner, spec: CommandSpec, dir: string, sh: Shell, g: Guest)
    requires spec.argv != [] && AsksFor(spec, dir) && !g.canEnter(dir)
    ensures Compile(r, spec).Some?
    ensures RunGuest(Compile(r, spec).value, sh, g)
         == if spec.env == [] then Finished(sh, false) else Start(spec, spec.env[1..], sh, g)
  {
    assert WorkDir(spec) == Some(dir);
    GuestRunsInner(r, spec, Compile(r, spec).value, UserCommand(dir, spec), sh, g);
    DirIsAbsolute(dir);
    RunsDespiteCd(dir, spec, sh, g);
  }

  lemma WithoutTheFirst(spec: CommandSpec, sh: Shell, g: Guest)
    requires spec.argv != [] && spec.env != [] && DistinctKeys(spec.env) && forall e :: e in spec.env ==> IsName(e.key)
    requires IsOperand(g.dialect, spec.argv[0]) && NothingHeld(g, spec.env)
    ensures Start(spec, spec.env[1..], sh, g)
         == Exec(spec.argv[0], spec.argv, Shell(sh.cwd, Exported(sh.env, spec.env[1..])))
  {
    var left := spec.(env := spec.env[1..]);
    assert forall e :: e in left.env ==> e in spec.env;
    SameStart(spec, left, sh, g);
    StartIsExact(left, sh, g);
  }

  /** If the directory cannot be entered, `exec` is not reached when there are no variables; otherwise
      it is, in the old directory and without the first variable. So a command that is otherwise
      intact is held back exactly when it has no variables. */
  lemma FailedCdStopsOnlyWithoutEnv(r: Runner, spec: CommandSpec, dir: string, sh: Shell, g: Guest)
    requires Validate(spec) == Valid && DistinctKeys(spec.env)
    requires AsksFor(spec, dir) && !g.canEnter(dir)
    ensures Compile(r, spec).Some?
    ensures var o := RunGuest(Compile(r, spec).value, sh, g);
            && o == (if spec.env == [] then Finished(sh, false) else Start(spec, spec.env[1..], sh, g))
            && (IsOperand(g.dialect, spec.argv[0]) && NothingHeld(g, spec.env) ==>
                  (o.Exec? <==> spec.env != [])
                  && (o.Exec? ==> o == Exec(spec.argv[0], spec.argv, Shell(sh.cwd, Exported(sh.env, spec.env[1..])))))
  {
    AfterFailedCd(r, spec, dir, sh, g);
    CheckKeysFacts(spec.env);
    hide RunGuest, Compile, AsksFor, CheckKeys, IsName, Start, NothingHeld, IsOperand, Exported;
    if spec.env != [] && IsOperand(g.dialect, spec.argv[0]) && NothingHeld(g, spec.env) {
      WithoutTheFirst(spec, sh, g);
    }
  }

  lemma SameStart(spec: CommandSpec, left: CommandSpec, sh: Shell, g: Guest)
    requires spec.argv == left.argv
    ensures Start(spec, left.env, sh, g) == Start(left, left.env, sh, g)
  {
  }
}
