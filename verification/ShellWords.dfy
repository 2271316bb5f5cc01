/** The part of the POSIX shell's token recognition (POSIX.1-2017, Shell Command Language, sections
    2.2.1, 2.2.2 and 2.3) that the generated scripts use, and the agent's quoting. */
module ShellWords {
  import opened Text

  datatype Token = Word(text: string) | Operator(symbol: string)

  // ----- the shell's side -----

  datatype Mode = Between | InWord(text: string) | InQuotes(text: string)

  predicate IsBlank(c: char) { c == ' ' || c == '\t' }

  predicate EndsWord(c: char) { IsBlank(c) || c == ';' || c == '&' || c == '|' || c == '>' }

  /** Characters that stand for themselves outside quotes. Everything else must be quoted. */
  predicate IsPlain(c: char) { IsSafe(c) || c == '{' || c == '}' || c == '!' }

  function Cons(t: Token, r: Option<seq<Token>>): Option<seq<Token>> {
    match r
    case None => None
    case Some(ts) => Some([t] + ts)
  }

  predicate TwoCharOperator(s: string) {
    |s| >= 2 && (s[..2] == "&&" || s[..2] == "||" || s[..2] == ">&")
  }

  /** Tokens of `s`, or nothing if `s` uses a construct outside the fragment, such as an expansion,
      a comment, a lone `&` or an unterminated quote. */
  function Scan(s: string, mode: Mode): Option<seq<Token>>
    decreases |s|, if mode.InWord? then 2 else 1
  {
    match mode
    case Between =>
      if s == [] then Some([])
      else if IsBlank(s[0]) then Scan(s[1..], Between)
      else if TwoCharOperator(s) then Cons(Operator(s[..2]), Scan(s[2..], Between))
      else if s[0] == ';' || s[0] == '>' then Cons(Operator(s[..1]), Scan(s[1..], Between))
      else if EndsWord(s[0]) then None
      else ScanChar(s, [])
    case InWord(w) =>
      if s == [] then Some([Word(w)])
      else if EndsWord(s[0]) then Cons(Word(w), Scan(s, Between))
      else ScanChar(s, w)
    case InQuotes(w) =>
      if s == [] then None
      else if s[0] == '\'' then Scan(s[1..], InWord(w))
      else Scan(s[1..], InQuotes(w + [s[0]]))
  }

  /** One quoted, escaped or plain character of a word. */
  function ScanChar(s: string, w: string): Option<seq<Token>>
    requires s != []
    decreases |s|, 0
  {
    if s[0] == '\'' then Scan(s[1..], InQuotes(w))
    else if s[0] == '\\' then
      if |s| < 2 || s[1] == '\n' then None else Scan(s[2..], InWord(w + [s[1]]))
    else if IsPlain(s[0]) then Scan(s[1..], InWord(w + [s[0]]))
    else None
  }

  // ----- the agent's side -----

  predicate IsSafe(c: char) {
    || IsAsciiAlphanumeric(c)
    || c == '@' || c == '%' || c == '_' || c == '-' || c == '+' || c == '=' || c == ':' || c == ',' || c == '.' || c == '/'
  }

  predicate AllSafe(s: string) { forall i :: 0 <= i < |s| ==> IsSafe(s[i]) }

  /** `value.replace('\'', "'\\''")` */
  function ReplaceQuotes(s: string): string {
    if s == [] then []
    else (if s[0] == '\'' then "'\\''" else [s[0]]) + ReplaceQuotes(s[1..])
  }

  function Escape(value: string): string {
    if value == [] then "''"
    else if AllSafe(value) then value
    else "'" + ReplaceQuotes(value) + "'"
  }

  /** Only non-empty words of harmless characters are left as they are. */
  lemma EscapesExactly(value: string)
    ensures Escape(value) == value
       <==> && value != []
            && forall i :: 0 <= i < |value| ==> || '0' <= value[i] <= '9' || 'A' <= value[i] <= 'Z' || 'a' <= value[i] <= 'z'
                                                || value[i] in "@%_-+=:,./"
  {
    forall i | 0 <= i < |value| ensures IsSafe(value[i]) <==> IsAsciiAlphanumeric(value[i]) || value[i] in "@%_-+=:,./" {
      InSafeList(value[i]);
    }
    if value != [] && !AllSafe(value) {
      var i :| 0 <= i < |value| && !IsSafe(value[i]);
      NeverShorter(value);
      assert |Escape(value)| > |value|;
    }
  }

  lemma InSafeList(c: char)
    ensures IsSafe(c) <==> IsAsciiAlphanumeric(c) || c in "@%_-+=:,./"
  {
    var list := "@%_-+=:,./";
    assert list == ['@', '%', '_', '-', '+', '=', ':', ',', '.', '/'];
  }

  lemma {:induction false} NeverShorter(s: string)
    ensures |ReplaceQuotes(s)| >= |s|
  {
    if s != [] { NeverShorter(s[1..]); }
  }

  function Join(command: seq<string>): string {
    if command == [] then []
    else if |command| == 1 then Escape(command[0])
    else Escape(command[0]) + " " + Join(command[1..])
  }

  // ----- quoting survives the shell -----

  predicate AllPlain(s: string) { forall i :: 0 <= i < |s| ==> IsPlain(s[i]) }

  lemma {:induction false} PlainScans(v: string, w: string, rest: string)
    requires AllPlain(v)
    ensures Scan(v + rest, InWord(w)) == Scan(rest, InWord(w + v))
  {
    if v == [] {
      assert v + rest == rest && w + v == w;
    } else {
      assert (v + rest)[1..] == v[1..] + rest && (v + rest)[0] == v[0];
      PlainScans(v[1..], w + [v[0]], rest);
      assert w + [v[0]] + v[1..] == w + v;
    }
  }

  lemma {:induction false} QuotedScans(v: string, w: string, rest: string)
    ensures Scan(ReplaceQuotes(v) + "'" + rest, InQuotes(w)) == Scan(rest, InWord(w + v))
  {
    var s := ReplaceQuotes(v) + "'" + rest;
    if v == [] {
      assert s == ['\''] + rest && s[1..] == rest && w + v == w;
    } else {
      var more := ReplaceQuotes(v[1..]) + "'" + rest;
      QuotedScans(v[1..], w + [v[0]], rest);
      assert w + [v[0]] + v[1..] == w + v;
      if v[0] == '\'' {
        assert s == "'\\''" + more;
        CloseEscapeOpen(more, w);
      } else {
        assert s == [v[0]] + more && s[1..] == more;
      }
    }
  }

  /** The sequence `'\''` inside quotes adds one quote character. */
  lemma CloseEscapeOpen(more: string, w: string)
    ensures Scan("'\\''" + more, InQuotes(w)) == Scan(more, InQuotes(w + ['\'']))
  {
    var s := "'\\''" + more;
    var s1, s2 := s[1..], s[1..][2..];
    assert s1 == "\\''" + more && s2 == "'" + more && s2[1..] == more;
    assert Scan(s, InQuotes(w)) == Scan(s1, InWord(w)) == ScanChar(s1, w);
    assert ScanChar(s1, w) == Scan(s2, InWord(w + ['\'']));
    assert Scan(s2, InWord(w + ['\''])) == ScanChar(s2, w + ['\'']);
  }

  /** Whatever the value, its quoted form adds exactly the value to the word being read. */
  lemma EscapeScans(v: string, w: string, rest: string)
    ensures Scan(Escape(v) + rest, InWord(w)) == Scan(rest, InWord(w + v))
  {
    var s := Escape(v) + rest;
    if v != [] && AllSafe(v) {
      PlainScans(v, w, rest);
    } else {
      var body := ReplaceQuotes(v) + "'" + rest;
      assert s == "'" + body && s[1..] == body;
      assert Scan(s, InWord(w)) == ScanChar(s, w) == Scan(body, InQuotes(w));
      QuotedScans(v, w, rest);
    }
  }

  // ----- scripts as lists of items -----

  /** A piece of a generated script: a blank, an operator, or a word made of plain text followed by
      a quoted value. */
  datatype Item = Blank | Op(symbol: string) | Arg(plain: string, value: Option<string>)

  function ItemText(it: Item): string {
    match it
    case Blank => " "
    case Op(symbol) => symbol
    case Arg(plain, None) => plain
    case Arg(plain, Some(v)) => plain + Escape(v)
  }

  function Render(items: seq<Item>): string {
    if items == [] then [] else ItemText(items[0]) + Render(items[1..])
  }

  /** What the shell must read: blanks vanish, quoting is undone. */
  function Meaning(items: seq<Item>): seq<Token> {
    if items == [] then []
    else
      match items[0]
      case Blank => Meaning(items[1..])
      case Op(symbol) => [Operator(symbol)] + Meaning(items[1..])
      case Arg(plain, value) =>
        [Word(plain + match value case None => "" case Some(v) => v)] + Meaning(items[1..])
  }

  predicate ItemOk(it: Item) {
    match it
    case Blank => true
    case Op(symbol) => symbol in [";", "&&", "||", ">", ">&"]
    case Arg(plain, value) => AllPlain(plain) && (plain != [] || value.Some?)
  }

  /** Words do not touch, and `>` is not followed by something that would make it another operator. */
  predicate Spaced(items: seq<Item>) {
    items != [] ==>
      && ItemOk(items[0])
      && Spaced(items[1..])
      && (|items| > 1 && items[0].Arg? ==> !items[1].Arg?)
      && (|items| > 1 && items[0].Op? ==> !items[1].Op?)
  }

  lemma ArgScans(plain: string, value: Option<string>, rest: string)
    requires ItemOk(Arg(plain, value))
    ensures Scan(ItemText(Arg(plain, value)) + rest, Between)
         == Scan(rest, InWord(plain + match value case None => "" case Some(v) => v))
  {
    var t := ItemText(Arg(plain, value));
    var s := t + rest;
    StartsWord(plain, value, rest);
    match value
    case None =>
      PlainScans(plain, [], rest);
      assert [] + plain == plain == plain + "";
    case Some(v) =>
      Assoc(plain, Escape(v), rest);
      PlainScans(plain, [], Escape(v) + rest);
      EscapeScans(v, plain, rest);
      assert [] + plain == plain;
  }

  /** The first character of a word is plain or a quote. */
  lemma FirstOfArg(plain: string, value: Option<string>)
    requires ItemOk(Arg(plain, value))
    ensures var t := ItemText(Arg(plain, value)); t != [] && (IsPlain(t[0]) || t[0] == '\'')
  {
    if plain != [] {
      assert IsPlain(plain[0]);
    } else if value.value != [] && AllSafe(value.value) {
      assert IsSafe(value.value[0]);
    }
  }

  /** A word may start from between words as if it had already begun, empty. */
  lemma StartsWord(plain: string, value: Option<string>, rest: string)
    requires ItemOk(Arg(plain, value))
    ensures var s := ItemText(Arg(plain, value)) + rest;
            Scan(s, Between) == Scan(s, InWord([]))
  {
    FirstOfArg(plain, value);
    StartsWordAt(ItemText(Arg(plain, value)) + rest);
  }

  lemma StartsWordAt(s: string)
    requires s != [] && (IsPlain(s[0]) || s[0] == '\'')
    ensures Scan(s, Between) == Scan(s, InWord([]))
  {
    assert !EndsWord(s[0]);
    assert !TwoCharOperator(s) by { if |s| >= 2 { assert s[..2][0] == s[0]; } }
  }

  lemma OpScans(symbol: string, rest: string)
    requires ItemOk(Op(symbol)) && (rest == [] || rest[0] !in "&|>;")
    ensures Scan(symbol + rest, Between) == Cons(Operator(symbol), Scan(rest, Between))
  {
    var s := symbol + rest;
    if |symbol| == 2 {
      assert s[..2] == symbol && s[2..] == rest;
    } else {
      assert s[..1] == symbol && s[1..] == rest && s[0] == symbol[0];
      assert !TwoCharOperator(s) by {
        if |s| >= 2 { assert s[..2][1] == rest[0]; }
      }
    }
  }

  lemma RenderStart(items: seq<Item>)
    requires Spaced(items)
    ensures items != [] && items[0].Arg? ==> Render(items) != [] && Render(items)[0] !in "&|>;"
    ensures items != [] && items[0].Blank? ==> Render(items) != [] && Render(items)[0] == ' '
    ensures items != [] && items[0].Op? ==> Render(items) != [] && EndsWord(Render(items)[0])
  {
    if items != [] && items[0].Arg? {
      FirstOfArg(items[0].plain, items[0].value);
    }
  }

  lemma WordEnds(w: string, rest: string)
    requires rest == [] || EndsWord(rest[0])
    ensures Scan(rest, InWord(w)) == Cons(Word(w), Scan(rest, Between))
  {
    assert [Word(w)] + [] == [Word(w)];
  }

  /** The shell reads back from a generated script exactly the words that went into it. */
  lemma {:induction false} ScriptScans(items: seq<Item>)
    requires Spaced(items)
    ensures Scan(Render(items), Between) == Some(Meaning(items))
  {
    if items != [] {
      var rest := Render(items[1..]);
      ScriptScans(items[1..]);
      RenderStart(items[1..]);
      match items[0]
      case Blank => assert (" " + rest)[1..] == rest;
      case Op(symbol) => OpScans(symbol, rest);
      case Arg(plain, value) =>
        ArgScans(plain, value, rest);
        assert items[1..] == [] || items[1..][0] == items[1];
        assert rest == [] || EndsWord(rest[0]);
        assert rest == [] ==> items[1..] == [];
        var w := plain + match value case None => "" case Some(v) => v;
        WordEnds(w, rest);
        assert Meaning(items) == [Word(w)] + Meaning(items[1..]);
    }
  }

  // ----- building scripts -----

  lemma {:induction false} MeaningAppend(a: seq<Item>, b: seq<Item>)
    ensures Meaning(a + b) == Meaning(a) + Meaning(b)
  {
    if a == [] {
      assert a + b == b;
    } else {
      assert (a + b)[1..] == a[1..] + b;
      MeaningAppend(a[1..], b);
    }
  }

  lemma {:induction false} RenderAppend(a: seq<Item>, b: seq<Item>)
    ensures Render(a + b) == Render(a) + Render(b)
    ensures Meaning(a + b) == Meaning(a) + Meaning(b)
  {
    hide Meaning, ItemText;
    MeaningAppend(a, b);
    if a == [] {
      assert a + b == b;
    } else {
      assert (a + b)[1..] == a[1..] + b;
      RenderAppend(a[1..], b);
    }
  }

  /** Two scripts can be put together if a word meets neither a word nor an operator an operator. */
  predicate Fits(a: seq<Item>, b: seq<Item>) {
    a != [] && b != [] ==>
      var x, y := a[|a| - 1], b[0];
      !(x.Arg? && y.Arg?) && !(x.Op? && y.Op?)
  }

  lemma {:induction false} SpacedAppend(a: seq<Item>, b: seq<Item>)
    requires Spaced(a) && Spaced(b) && Fits(a, b)
    ensures Spaced(a + b)
  {
    if a == [] {
      assert a + b == b;
    } else {
      assert (a + b)[1..] == a[1..] + b;
      SpacedAppend(a[1..], b);
    }
  }

  /** `items` is a well-spaced script whose text is `text` and whose words and operators are `tokens`. */
  ghost predicate Script(items: seq<Item>, text: string, tokens: seq<Token>) {
    Spaced(items) && Render(items) == text && Meaning(items) == tokens
  }

  lemma Compose(a: seq<Item>, s: string, x: seq<Token>, b: seq<Item>, t: string, y: seq<Token>)
    requires Script(a, s, x) && Script(b, t, y) && Fits(a, b)
    ensures Script(a + b, s + t, x + y)
  {
    SpacedAppend(a, b);
    RenderAppend(a, b);
  }

  function ItemTokens(it: Item): seq<Token> {
    match it
    case Blank => []
    case Op(symbol) => [Operator(symbol)]
    case Arg(plain, value) => [Word(plain + match value case None => "" case Some(v) => v)]
  }

  lemma Single(it: Item)
    requires ItemOk(it)
    ensures Script([it], ItemText(it), ItemTokens(it))
  {
    assert [it][1..] == [];
    assert ItemText(it) + [] == ItemText(it) && ItemTokens(it) + [] == ItemTokens(it);
  }

  lemma ScriptReads(items: seq<Item>, text: string, tokens: seq<Token>)
    requires Script(items, text, tokens)
    ensures Scan(text, Between) == Some(tokens)
  {
    ScriptScans(items);
  }

  /** Quoted values separated by blanks. */
  function Args(values: seq<string>): seq<Item> {
    if values == [] then []
    else if |values| == 1 then [Arg("", Some(values[0]))]
    else [Arg("", Some(values[0])), Blank] + Args(values[1..])
  }

  function Words(values: seq<string>): seq<Token> {
    if values == [] then [] else [Word(values[0])] + Words(values[1..])
  }

  /** An argument list starts and ends with a word. */
  predicate WordsAtEnds(items: seq<Item>) {
    items != [] && items[0].Arg? && items[|items| - 1].Arg?
  }

  lemma OneArg(v: string)
    ensures Script([Arg("", Some(v))], Escape(v), [Word(v)])
  {
    Single(Arg("", Some(v)));
    assert "" + Escape(v) == Escape(v) && "" + v == v;
  }

  lemma OneLiteral(w: string)
    requires w != [] && AllPlain(w)
    ensures Script([Arg(w, None)], w, [Word(w)]) && WordsAtEnds([Arg(w, None)])
  {
    Single(Arg(w, None));
    assert w + "" == w;
  }

  /** Put a blank between two lists of words. */
  lemma ComposeWords(a: seq<Item>, s: string, x: seq<Token>, b: seq<Item>, t: string, y: seq<Token>)
    requires Script(a, s, x) && Script(b, t, y) && WordsAtEnds(a) && WordsAtEnds(b)
    ensures Script(a + [Blank] + b, s + " " + t, x + y) && WordsAtEnds(a + [Blank] + b)
  {
    Single(Blank);
    Compose(a, s, x, [Blank], " ", []);
    assert x + [] == x;
    assert (a + [Blank])[|a|] == Blank;
    Compose(a + [Blank], s + " ", x, b, t, y);
  }

  lemma {:induction false} JoinIsArgs(values: seq<string>)
    ensures Script(Args(values), Join(values), Words(values))
    ensures values != [] ==> WordsAtEnds(Args(values))
  {
    if values != [] {
      OneArg(values[0]);
      if |values| > 1 {
        var first, more := [Arg("", Some(values[0]))], Args(values[1..]);
        JoinIsArgs(values[1..]);
        ComposeWords(first, Escape(values[0]), [Word(values[0])], more, Join(values[1..]), Words(values[1..]));
        assert Args(values) == first + [Blank] + more;
      }
    }
  }

  /** Tokenising a joined argument list gives the arguments back, whatever they contain. */
  lemma JoinRoundTrip(values: seq<string>)
    ensures Scan(Join(values), Between) == Some(Words(values))
  {
    JoinIsArgs(values);
    ScriptScans(Args(values));
  }

  // ----- fixed script text -----

  /** What separates one fixed command from the next, as it is spelt. */
  datatype Separator = AndIf | OrIf | Semi | Into | Dup

  function SeparatorText(sep: Separator): string {
    match sep
    case AndIf => " && "
    case OrIf => " || "
    case Semi => "; "
    case Into => " >"
    case Dup => ">&"
  }

  function SeparatorItems(sep: Separator): seq<Item> {
    match sep
    case AndIf => [Blank, Op("&&"), Blank]
    case OrIf => [Blank, Op("||"), Blank]
    case Semi => [Op(";"), Blank]
    case Into => [Blank, Op(">")]
    case Dup => [Op(">&")]
  }

  /** Fixed words followed by a separator. */
  datatype Clause = Clause(words: seq<string>, sep: Separator)

  function SpaceJoined(words: seq<string>): string {
    if words == [] then []
    else if |words| == 1 then words[0]
    else words[0] + " " + SpaceJoined(words[1..])
  }

  function PrefixText(cs: seq<Clause>): string {
    if cs == [] then [] else SpaceJoined(cs[0].words) + SeparatorText(cs[0].sep) + PrefixText(cs[1..])
  }

  function SeparatorTokens(sep: Separator): seq<Token> {
    [Operator(match sep case AndIf => "&&" case OrIf => "||" case Semi => ";" case Into => ">" case Dup => ">&")]
  }

  function PrefixTokens(cs: seq<Clause>): seq<Token> {
    if cs == [] then [] else Words(cs[0].words) + SeparatorTokens(cs[0].sep) + PrefixTokens(cs[1..])
  }

  predicate PlainWords(words: seq<string>) {
    forall i :: 0 <= i < |words| ==> words[i] != [] && AllPlain(words[i])
  }

  predicate PlainClauses(cs: seq<Clause>) {
    forall i :: 0 <= i < |cs| ==> cs[i].words != [] && PlainWords(cs[i].words)
  }

  function Literals(words: seq<string>): seq<Item> {
    if words == [] then []
    else if |words| == 1 then [Arg(words[0], None)]
    else [Arg(words[0], None), Blank] + Literals(words[1..])
  }

  function PrefixItems(cs: seq<Clause>): seq<Item> {
    if cs == [] then [] else Literals(cs[0].words) + SeparatorItems(cs[0].sep) + PrefixItems(cs[1..])
  }

  lemma {:induction false} LiteralsAreWords(words: seq<string>)
    requires PlainWords(words) && words != []
    ensures Script(Literals(words), SpaceJoined(words), Words(words)) && WordsAtEnds(Literals(words))
  {
    Single(Arg(words[0], None));
    assert words[0] + "" == words[0];
    if |words| > 1 {
      var first, more := [Arg(words[0], None)], Literals(words[1..]);
      LiteralsAreWords(words[1..]);
      ComposeWords(first, words[0], [Word(words[0])], more, SpaceJoined(words[1..]), Words(words[1..]));
      assert Literals(words) == first + [Blank] + more;
    }
  }

  lemma SeparatorFacts(sep: Separator)
    ensures Script(SeparatorItems(sep), SeparatorText(sep), SeparatorTokens(sep))
  {
    var it, op := SeparatorItems(sep), SeparatorTokens(sep)[0];
    Single(Blank);
    Single(Op(op.symbol));
    var o, t := [Op(op.symbol)], [op];
    if sep.AndIf? || sep.OrIf? {
      Compose([Blank], " ", [], o, op.symbol, t);
      Compose([Blank] + o, " " + op.symbol, [] + t, [Blank], " ", []);
      assert [Blank] + o + [Blank] == it && [] + t + [] == t;
    } else if sep.Semi? {
      Compose(o, op.symbol, t, [Blank], " ", []);
      assert o + [Blank] == it && t + [] == t;
    } else if sep.Into? {
      Compose([Blank], " ", [], o, op.symbol, t);
      assert [Blank] + o == it && [] + t == t;
    }
  }

  /** A fixed prefix: empty, or starting with a word and ending with a separator. */
  predicate IsPrefix(items: seq<Item>) {
    items != [] ==> items[0].Arg? && !items[|items| - 1].Arg?
  }

  lemma ComposeClause(words: seq<Item>, s: string, x: seq<Token>, sep: Separator)
    requires Script(words, s, x) && WordsAtEnds(words)
    ensures var it := words + SeparatorItems(sep);
            Script(it, s + SeparatorText(sep), x + SeparatorTokens(sep)) && IsPrefix(it) && it != []
  {
    SeparatorFacts(sep);
    var t := SeparatorItems(sep);
    Compose(words, s, x, t, SeparatorText(sep), SeparatorTokens(sep));
    assert (words + t)[|words + t| - 1] == t[|t| - 1];
  }

  lemma ComposePrefix(a: seq<Item>, s: string, x: seq<Token>, b: seq<Item>, t: string, y: seq<Token>)
    requires Script(a, s, x) && Script(b, t, y) && IsPrefix(a) && a != [] && IsPrefix(b)
    ensures Script(a + b, s + t, x + y) && IsPrefix(a + b)
  {
    Compose(a, s, x, b, t, y);
    if b != [] { assert (a + b)[|a + b| - 1] == b[|b| - 1]; } else { assert a + b == a; }
  }

  lemma {:induction false} PrefixFacts(cs: seq<Clause>)
    requires PlainClauses(cs)
    ensures Script(PrefixItems(cs), PrefixText(cs), PrefixTokens(cs)) && IsPrefix(PrefixItems(cs))
  {
    if cs != [] {
      var c := cs[0];
      LiteralsAreWords(c.words);
      ComposeClause(Literals(c.words), SpaceJoined(c.words), Words(c.words), c.sep);
      PrefixFacts(cs[1..]);
      ComposePrefix(Literals(c.words) + SeparatorItems(c.sep),
                    SpaceJoined(c.words) + SeparatorText(c.sep), Words(c.words) + SeparatorTokens(c.sep),
                    PrefixItems(cs[1..]), PrefixText(cs[1..]), PrefixTokens(cs[1..]));
    }
  }

  /** After a fixed prefix, any list of words. */
  lemma PrefixThenWords(cs: seq<Clause>, b: seq<Item>, t: string, y: seq<Token>)
    requires PlainClauses(cs) && Script(b, t, y) && WordsAtEnds(b)
    ensures Scan(PrefixText(cs) + t, Between) == Some(PrefixTokens(cs) + y)
  {
    PrefixFacts(cs);
    Compose(PrefixItems(cs), PrefixText(cs), PrefixTokens(cs), b, t, y);
    ScriptReads(PrefixItems(cs) + b, PrefixText(cs) + t, PrefixTokens(cs) + y);
  }

  /** A fixed prefix, fixed words, and then one quoted value: the shell sees the value as one word. */
  lemma PrefixedValueScans(cs: seq<Clause>, words: seq<string>, value: string)
    requires PlainClauses(cs) && PlainWords(words) && words != []
    ensures Scan(PrefixText(cs) + (SpaceJoined(words) + " " + Escape(value)), Between)
         == Some(PrefixTokens(cs) + (Words(words) + [Word(value)]))
  {
    var b, c := Literals(words), [Arg("", Some(value))];
    LiteralsAreWords(words);
    OneArg(value);
    ComposeWords(b, SpaceJoined(words), Words(words), c, Escape(value), [Word(value)]);
    PrefixThenWords(cs, b + [Blank] + c, SpaceJoined(words) + " " + Escape(value), Words(words) + [Word(value)]);
  }
}
