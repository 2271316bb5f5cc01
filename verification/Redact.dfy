/** Masking the secrets that follow known markers in a log message. */
module Redact {
  import opened Text

  const REDACTED: string := "[REDACTED]"
  const MARKERS: seq<string> := ["NODE_TOKEN=", "nodeToken=", "Authorization: Bearer "]

  predicate OccursAt(m: string, s: string, i: nat) {
    i + |m| <= |s| && forall x :: i <= x < i + |m| ==> s[x] == m[x - i]
  }

  /** `s[i..].find(m)`, as an index into `s`. */
  function FindFrom(m: string, s: string, i: nat): (r: Option<nat>)
    requires i <= |s|
    ensures r.Some? ==> i <= r.value && OccursAt(m, s, r.value)
    decreases |s| - i
  {
    if OccursAt(m, s, i) then Some(i) else if i == |s| then None else FindFrom(m, s, i + 1)
  }

  lemma {:induction false} FindIsFirst(m: string, s: string, i: nat, j: nat)
    requires i <= j && OccursAt(m, s, j)
    ensures FindFrom(m, s, i).Some? && FindFrom(m, s, i).value <= j
    decreases j - i
  {
    if !OccursAt(m, s, i) { FindIsFirst(m, s, i + 1, j); }
  }

  /** Where the whitespace-free run starting at `i` ends. */
  function WordEnd(s: string, i: nat): (e: nat)
    requires i <= |s|
    ensures i <= e <= |s|
    ensures forall k :: i <= k < e ==> !IsWhitespace(s[k])
    ensures e < |s| ==> IsWhitespace(s[e])
    decreases |s| - i
  {
    if i == |s| || IsWhitespace(s[i]) then i else WordEnd(s, i + 1)
  }

  /** A text cut at the secrets that follow a marker: each `kept` ends with the marker. */
  datatype Dissection = End(tail: string) | Hit(kept: string, secret: string, rest: Dissection)

  function Original(d: Dissection): string {
    match d
    case End(tail) => tail
    case Hit(kept, secret, rest) => kept + secret + Original(rest)
  }

  function Masked(d: Dissection): string {
    match d
    case End(tail) => tail
    case Hit(kept, _, rest) => kept + REDACTED + Masked(rest)
  }

  /** What find-and-replace sees from index `i` on. */
  function Dissect(m: string, s: string, i: nat): Dissection
    requires m != [] && i <= |s|
    decreases |s| - i
  {
    match FindFrom(m, s, i)
    case None => End(s[i..])
    case Some(p) =>
      var j, e := p + |m|, WordEnd(s, p + |m|);
      Hit(s[i..j], s[j..e], Dissect(m, s, e))
  }

  /** One marker's pass. */
  function Pass(m: string, s: string): string
    requires m != []
  {
    Masked(Dissect(m, s, 0))
  }

  function RedactAll(s: string): string {
    Pass(MARKERS[2], Pass(MARKERS[1], Pass(MARKERS[0], s)))
  }

  /** A correct dissection: each kept piece ends with its only, hence the first, occurrence of the
      marker; each secret is a whole whitespace-free run; the tail has no marker. */
  ghost predicate Dissects(m: string, d: Dissection) {
    match d
    case End(tail) => forall q: nat :: !OccursAt(m, tail, q)
    case Hit(kept, secret, rest) =>
      && |m| <= |kept| && OccursAt(m, kept, |kept| - |m|)
      && (forall q: nat :: q < |kept| - |m| ==> !OccursAt(m, kept, q))
      && (forall x :: 0 <= x < |secret| ==> !IsWhitespace(secret[x]))
      && (Original(rest) == [] || IsWhitespace(Original(rest)[0]))
      && Dissects(m, rest)
  }

  lemma Reassemble(s: string, i: nat, j: nat, e: nat)
    requires i <= j <= e <= |s|
    ensures s[i..j] + s[j..e] + s[e..] == s[i..]
  {
  }

  lemma SliceOccurs(m: string, s: string, i: nat, j: nat, q: nat)
    requires i <= j <= |s|
    ensures OccursAt(m, s[i..j], q) <==> OccursAt(m, s, i + q) && i + q + |m| <= j
  {
    assert forall x :: i <= x < j ==> s[x] == s[i..j][x - i];
  }

  lemma NoneFound(m: string, s: string, i: nat)
    requires i <= |s| && FindFrom(m, s, i) == None
    ensures Dissects(m, End(s[i..]))
  {
    assert s[i..|s|] == s[i..];
    forall q: nat ensures !OccursAt(m, s[i..|s|], q) {
      SliceOccurs(m, s, i, |s|, q);
      if OccursAt(m, s, i + q) { FindIsFirst(m, s, i, i + q); }
    }
  }

  /** The piece up to a first occurrence holds it at its end, and nowhere before. */
  lemma FirstFound(m: string, s: string, i: nat, p: nat, piece: string)
    requires i <= |s| && FindFrom(m, s, i) == Some(p) && piece == s[i..p + |m|]
    ensures OccursAt(m, piece, p - i) && forall q: nat :: q < p - i ==> !OccursAt(m, piece, q)
  {
    SliceOccurs(m, s, i, p + |m|, p - i);
    forall q: nat | q < p - i ensures !OccursAt(m, piece, q) {
      SliceOccurs(m, s, i, p + |m|, q);
      if OccursAt(m, s, i + q) { FindIsFirst(m, s, i, i + q); }
    }
  }

  /** A pass replaces exactly the secrets of the text and nothing else. */
  lemma {:induction false} PassMasksSecretsOnly(m: string, s: string, i: nat)
    requires m != [] && i <= |s|
    ensures Dissects(m, Dissect(m, s, i)) && Original(Dissect(m, s, i)) == s[i..]
    decreases |s| - i
  {
    hide FindFrom;
    match FindFrom(m, s, i)
    case None => NoneFound(m, s, i);
    case Some(p) =>
      var j, e := p + |m|, WordEnd(s, p + |m|);
      PassMasksSecretsOnly(m, s, e);
      Reassemble(s, i, j, e);
      FirstFound(m, s, i, p, s[i..j]);
  }

  // ----- the in-place rewrite -----

  lemma PieceAt(s: string, i: nat, kept: string, rest: string)
    requires i <= |s| && s[i..] == kept + rest
    ensures i + |kept| <= |s| && s[i..i + |kept|] == kept
  {
    assert s[i..][..|kept|] == kept;
  }

  /** A piece that holds the marker only at its end is where the next find stops. */
  lemma FoundAt(m: string, s: string, i: nat, kept: string)
    requires i + |kept| <= |s| && kept == s[i..i + |kept|] && |m| <= |kept|
    requires OccursAt(m, kept, |kept| - |m|) && forall q: nat :: q < |kept| - |m| ==> !OccursAt(m, kept, q)
    ensures FindFrom(m, s, i) == Some(i + |kept| - |m|)
  {
    var j := i + |kept|;
    SliceOccurs(m, s, i, j, |kept| - |m|);
    FindIsFirst(m, s, i, j - |m|);
    SliceOccurs(m, s, i, j, FindFrom(m, s, i).value - i);
  }

  /** The next find and the next whitespace are where the dissection says. */
  lemma NextHit(m: string, s: string, i: nat, d: Dissection)
    requires m != [] && i <= |s| && Dissects(m, d) && Original(d) == s[i..]
    ensures match FindFrom(m, s, i)
            case None => d.End?
            case Some(p) => d.Hit? && i + |d.kept| == p + |m| && WordEnd(s, p + |m|) == p + |m| + |d.secret|
  {
    match d
    case End(tail) =>
      if FindFrom(m, s, i).Some? { SliceOccurs(m, s, i, |s|, FindFrom(m, s, i).value - i); }
      assert s[i..|s|] == s[i..];
    case Hit(kept, secret, rest) =>
      hide OccursAt, FindFrom, WordEnd, IsWhitespace;
      Assoc(kept, secret, Original(rest));
      PieceAt(s, i, kept, secret + Original(rest));
      FoundAt(m, s, i, kept);
      WordIs(s, i, kept, secret, Original(rest));
  }

  /** The end of a run is determined by its characters and by what stops it. */
  lemma EndOfRun(s: string, j: nat, e: nat)
    requires j <= e <= |s| && forall x :: j <= x < e ==> !IsWhitespace(s[x])
    requires e < |s| ==> IsWhitespace(s[e])
    ensures WordEnd(s, j) == e
  {
    hide IsWhitespace;
  }

  lemma WordIs(s: string, i: nat, kept: string, secret: string, next: string)
    requires i <= |s| && s[i..] == kept + secret + next
    requires forall x :: 0 <= x < |secret| ==> !IsWhitespace(secret[x])
    requires next == [] || IsWhitespace(next[0])
    ensures i + |kept| <= |s| && WordEnd(s, i + |kept|) == i + |kept| + |secret|
  {
    hide IsWhitespace;
    var j := i + |kept|;
    Assoc(kept, secret, next);
    TailOf(s, i, kept, secret + next);
    TailOf(s, j, secret, next);
    var e := j + |secret|;
    forall x | j <= x < e ensures !IsWhitespace(s[x]) { assert s[x] == s[j..][x - j] == secret[x - j]; }
    if next != [] { assert s[e] == s[e..][0]; }
    EndOfRun(s, j, e);
  }

  /** Moving the cut of a text past the first piece of what follows it. */
  lemma TailOf(value: string, offset: nat, a: string, b: string)
    requires offset <= |value| && value[offset..] == a + b
    ensures offset + |a| <= |value|
    ensures value[offset + |a|..] == b && value[..offset + |a|] == value[..offset] + a
  {
    var t := value[offset..];
    assert t[|a|..] == b && t[..|a|] == a;
    assert value[offset..][|a|..] == value[offset + |a|..];
    assert value[..offset + |a|] == value[..offset] + t[..|a|];
  }

  /** One replacement: what is before the new offset is final, what is after it is untouched. */
  lemma Replaced(m: string, value: string, offset: nat, d: Dissection, start: nat, end: nat)
    requires offset <= |value| && d.Hit? && Dissects(m, d) && Original(d) == value[offset..]
    requires start == offset + |d.kept| && end == start + |d.secret|
    ensures end <= |value| && Dissects(m, d.rest) && value[end..] == Original(d.rest)
    ensures value[..offset] + Masked(d) == value[..start] + REDACTED + Masked(d.rest)
  {
    var after := Original(d.rest);
    Assoc(d.kept, d.secret, after);
    TailOf(value, offset, d.kept, d.secret + after);
    TailOf(value, start, d.secret, after);
    Assoc(d.kept, REDACTED, Masked(d.rest));
    Assoc(value[..offset], d.kept, REDACTED + Masked(d.rest));
    Assoc(value[..start], REDACTED, Masked(d.rest));
  }

  method RedactMarker(m: string, text: string) returns (value: string)
    requires m != []
    ensures value == Pass(m, text)
  {
    hide Dissects, FindFrom, WordEnd, Dissect;
    value := text;
    var offset: nat := 0;
    PassMasksSecretsOnly(m, text, 0);
    ghost var d := Dissect(m, text, 0);
    NextHit(m, value, offset, d);
    while FindFrom(m, value, offset).Some?
      invariant offset <= |value| && Dissects(m, d) && Original(d) == value[offset..]
      invariant FindFrom(m, value, offset).None? <==> d.End?
      invariant value[..offset] + Masked(d) == Pass(m, text)
      decreases |value| - offset
    {
      NextHit(m, value, offset, d);
      var start := FindFrom(m, value, offset).value + |m|;
      var end := WordEnd(value, start);
      Replaced(m, value, offset, d, start, end);
      ghost var before, suffix := value[..start] + REDACTED, value[end..];
      value := value[..start] + REDACTED + value[end..];
      offset := start + |REDACTED|;
      Halves(before, suffix);
      d := d.rest;
      NextHit(m, value, offset, d);
    }
    assert value == value[..offset] + value[offset..];
  }

  lemma Halves(a: string, b: string)
    ensures (a + b)[..|a|] == a && (a + b)[|a|..] == b
  {
  }

  method RedactMessage(text: string) returns (value: string)
    ensures value == RedactAll(text)
  {
    value := text;
    var k := 0;
    while k < |MARKERS|
      invariant k <= 3
      invariant value == if k == 0 then text
                         else if k == 1 then Pass(MARKERS[0], text)
                         else if k == 2 then Pass(MARKERS[1], Pass(MARKERS[0], text))
                         else RedactAll(text)
    {
      value := RedactMarker(MARKERS[k], value);
      k := k + 1;
    }
  }

  // ----- nothing after a marker but the mask -----

  /** At `j` stands the mask, and then whitespace or the end. */
  predicate MaskAt(s: string, j: nat) {
    && OccursAt(REDACTED, s, j)
    && (j + |REDACTED| == |s| || IsWhitespace(s[j + |REDACTED|]))
  }

  /** Every occurrence of the marker, anywhere, is followed by a mask. */
  ghost predicate Clean(m: string, s: string) {
    forall p: nat :: OccursAt(m, s, p) ==> MaskAt(s, p + |m|)
  }

  /** What the argument needs of a marker: it cannot overlap the mask. */
  predicate Marker(m: string) { |m| >= |REDACTED| && '[' !in m && ']' !in m }

  lemma TheMarkers()
    ensures forall k :: 0 <= k < |MARKERS| ==> Marker(MARKERS[k])
  {
  }

  /** A marker and a mask in the same text are apart. */
  lemma Apart(m: string, s: string, i: nat, j: nat)
    requires Marker(m) && OccursAt(m, s, i) && OccursAt(REDACTED, s, j)
    ensures i + |m| <= j || j + |REDACTED| <= i
  {
    assert s[j] == '[' && s[j + 9] == ']';
  }

  /** `out` is text, a mask, and more text: `head + REDACTED + tail`, said by index. */
  predicate Layout(out: string, head: string, tail: string) {
    && |out| == |head| + |REDACTED| + |tail|
    && OccursAt(head, out, 0) && OccursAt(REDACTED, out, |head|) && OccursAt(tail, out, |head| + |REDACTED|)
  }

  lemma LayoutOf(head: string, tail: string)
    ensures Layout(head + REDACTED + tail, head, tail)
  {
  }

  /** A marker in such a text lies in the head or in the tail. */
  lemma OccurrenceCases(m: string, out: string, head: string, tail: string, p: nat)
    requires Marker(m) && Layout(out, head, tail) && OccursAt(m, out, p)
    ensures || OccursAt(m, head, p)
            || (p >= |head| + |REDACTED| && OccursAt(m, tail, p - |head| - |REDACTED|))
  {
    var h := |head|;
    Apart(m, out, p, h);
    if p + |m| <= h {
      forall x | p <= x < p + |m| ensures head[x] == m[x - p] { assert out[x] == head[x - 0]; }
    } else {
      var o := h + |REDACTED|;
      forall x | p - o <= x < p - o + |m| ensures tail[x] == m[x - (p - o)] { assert out[o + x] == tail[x]; }
    }
  }

  lemma MaskInTail(out: string, head: string, tail: string, j: nat)
    requires Layout(out, head, tail) && MaskAt(tail, j)
    ensures MaskAt(out, |head| + |REDACTED| + j)
  {
    var o := |head| + |REDACTED|;
    forall x | o + j <= x < o + j + |REDACTED| ensures out[x] == REDACTED[x - o - j] { assert out[x] == tail[x - o]; }
    if j + |REDACTED| < |tail| { assert out[o + j + |REDACTED|] == tail[j + |REDACTED|]; }
  }

  lemma MaskedStartsAlike(m: string, d: Dissection)
    requires m != [] && Dissects(m, d)
    ensures Original(d) == [] ==> Masked(d) == []
    ensures Original(d) != [] ==> Masked(d) != [] && Masked(d)[0] == Original(d)[0]
  {
  }

  /** Where a hit was, a mask stands. */
  lemma MaskPlaced(m: string, d: Dissection)
    requires m != [] && Dissects(m, d) && d.Hit?
    ensures Layout(Masked(d), d.kept, Masked(d.rest)) && MaskAt(Masked(d), |d.kept|)
  {
    LayoutOf(d.kept, Masked(d.rest));
    MaskedStartsAlike(m, d.rest);
    var out, tail, o := Masked(d), Masked(d.rest), |d.kept| + |REDACTED|;
    if tail != [] { assert out[o] == tail[0]; }
  }

  /** After a marker's pass the text is clean of that marker. */
  lemma {:induction false} PassCleans(m: string, d: Dissection)
    requires Marker(m) && Dissects(m, d)
    ensures Clean(m, Masked(d))
  {
    hide MaskAt, Layout;
    if d.Hit? {
      var out, tail := Masked(d), Masked(d.rest);
      MaskPlaced(m, d);
      PassCleans(m, d.rest);
      forall q: nat | OccursAt(m, out, q) ensures MaskAt(out, q + |m|) {
        OccurrenceCases(m, out, d.kept, tail, q);
        if !OccursAt(m, d.kept, q) {
          MaskInTail(out, d.kept, tail, q - |d.kept| - |REDACTED| + |m|);
        }
      }
    }
  }

  lemma PrefixOccurs(m: string, a: string, b: string, q: nat)
    ensures OccursAt(m, a, q) ==> OccursAt(m, a + b, q)
    ensures q + |m| <= |a| ==> (OccursAt(m, a + b, q) <==> OccursAt(m, a, q))
    ensures OccursAt(m, b, q) <==> OccursAt(m, a + b, |a| + q)
  {
    var s := a + b;
    assert forall x :: 0 <= x < |a| ==> s[x] == a[x];
    assert forall x :: |a| <= x < |s| ==> s[x] == b[x - |a|];
    if OccursAt(m, b, q) {
      forall x | |a| + q <= x < |a| + q + |m| ensures s[x] == m[x - |a| - q] { assert s[x] == b[x - |a|]; }
    }
    if OccursAt(m, s, |a| + q) {
      forall x | q <= x < q + |m| ensures b[x] == m[x - q] { assert s[x + |a|] == b[x]; }
    }
  }

  lemma CleanSuffix(m: string, a: string, b: string)
    requires Clean(m, a + b)
    ensures Clean(m, b)
  {
    forall q: nat | OccursAt(m, b, q) ensures MaskAt(b, q + |m|) {
      PrefixOccurs(m, a, b, q);
      assert MaskAt(a + b, |a| + q + |m|);
      PrefixOccurs(REDACTED, a, b, q + |m|);
      var x := q + |m| + |REDACTED|;
      if x < |b| { assert (a + b)[|a| + x] == b[x]; }
    }
  }

  /** What stands at `j` before the end of `kept`, and the character after it, do not depend on what
      comes after `kept`. */
  lemma SameMask(kept: string, before: string, after: string, j: nat)
    requires j + |REDACTED| < |kept| && MaskAt(kept + before, j)
    ensures MaskAt(kept + after, j)
  {
    PrefixOccurs(REDACTED, kept, before, j);
    PrefixOccurs(REDACTED, kept, after, j);
    hide OccursAt;
    var k := j + |REDACTED|;
    assert (kept + before)[k] == kept[k] && (kept + after)[k] == kept[k];
  }

  /** A mask after a marker in `kept` ends before the marker `kept` ends with, or starts after it. */
  lemma MaskIsApart(other: string, d: Dissection, j: nat)
    requires Marker(other) && Dissects(other, d) && d.Hit?
    requires j < |d.kept| && MaskAt(Original(d), j)
    ensures j + |REDACTED| < |d.kept|
  {
    var kept, before := d.kept, d.secret + Original(d.rest);
    assert Original(d) == kept + before;
    PrefixOccurs(other, kept, before, |kept| - |other|);
    Apart(other, Original(d), |kept| - |other|, j);
  }

  /** A mask the text had before the next hit stays a mask. */
  lemma MaskInKept(m: string, other: string, d: Dissection, q: nat)
    requires Marker(other) && Dissects(other, d) && d.Hit?
    requires OccursAt(m, d.kept, q) && MaskAt(Original(d), q + |m|)
    ensures MaskAt(Masked(d), q + |m|)
  {
    var kept, j := d.kept, q + |m|;
    var before, after := d.secret + Original(d.rest), REDACTED + Masked(d.rest);
    assert Original(d) == kept + before && Masked(d) == kept + after;
    if j == |kept| {
      MaskPlaced(other, d);
    } else {
      MaskIsApart(other, d, j);
      hide MaskAt, OccursAt;
      SameMask(kept, before, after, j);
    }
  }

  /** A later pass keeps the text clean of the markers handled before. */
  lemma {:induction false} PassKeepsClean(m: string, other: string, d: Dissection)
    requires Marker(m) && Marker(other) && Dissects(other, d) && Clean(m, Original(d))
    ensures Clean(m, Masked(d))
  {
    hide MaskAt, Layout;
    if d.Hit? {
      var out, tail := Masked(d), Masked(d.rest);
      MaskPlaced(other, d);
      CleanSuffix(m, d.kept + d.secret, Original(d.rest));
      PassKeepsClean(m, other, d.rest);
      forall q: nat | OccursAt(m, out, q) ensures MaskAt(out, q + |m|) {
        OccurrenceCases(m, out, d.kept, tail, q);
        if OccursAt(m, d.kept, q) {
          PrefixOccurs(m, d.kept, d.secret + Original(d.rest), q);
          assert Original(d) == d.kept + (d.secret + Original(d.rest));
          MaskInKept(m, other, d, q);
        } else {
          MaskInTail(out, d.kept, tail, q - |d.kept| - |REDACTED| + |m|);
        }
      }
    }
  }

  lemma PassFacts(m: string, other: string, s: string)
    requires Marker(m) && Marker(other)
    ensures Clean(m, Pass(m, s))
    ensures Clean(m, s) ==> Clean(m, Pass(other, s))
  {
    PassMasksSecretsOnly(m, s, 0);
    PassCleans(m, Dissect(m, s, 0));
    PassMasksSecretsOnly(other, s, 0);
    assert s[0..] == s;
    if Clean(m, s) { PassKeepsClean(m, other, Dissect(other, s, 0)); }
  }

  /** In a redacted message every occurrence of any marker is followed by the mask and then by
      whitespace or the end of the text. */
  lemma RedactedIsClean(s: string)
    ensures forall k :: 0 <= k < |MARKERS| ==> Clean(MARKERS[k], RedactAll(s))
    ensures forall m :: m in ["NODE_TOKEN=", "nodeToken=", "Authorization: Bearer "] ==> Clean(m, RedactAll(s))
  {
    hide Pass, Clean;
    TheMarkers();
    var a, b, c := MARKERS[0], MARKERS[1], MARKERS[2];
    var s1 := Pass(a, s);
    var s2 := Pass(b, s1);
    PassFacts(a, b, s);
    PassFacts(b, b, s1);
    PassFacts(c, c, s2);
    PassFacts(a, b, s1);
    PassFacts(a, c, s2);
    PassFacts(b, c, s2);
  }

  // ----- idempotence -----

  lemma {:induction false} CleanIsFixed(m: string, d: Dissection)
    requires Marker(m) && Dissects(m, d) && Clean(m, Original(d))
    ensures Masked(d) == Original(d)
  {
    if d.Hit? {
      var after := d.secret + Original(d.rest);
      assert Original(d) == d.kept + after;
      PrefixOccurs(m, d.kept, after, |d.kept| - |m|);
      assert MaskAt(Original(d), |d.kept|);
      PrefixOccurs(REDACTED, d.kept, after, 0);
      if |after| > |REDACTED| { assert Original(d)[|d.kept| + |REDACTED|] == after[|REDACTED|]; }
      SecretIsMask(after, d.secret, Original(d.rest));
      CleanSuffix(m, d.kept + d.secret, Original(d.rest));
      CleanIsFixed(m, d.rest);
    }
  }

  lemma SecretIsMask(after: string, secret: string, rest: string)
    requires after == secret + rest && MaskAt(after, 0)
    requires forall x :: 0 <= x < |secret| ==> !IsWhitespace(secret[x])
    requires rest == [] || IsWhitespace(rest[0])
    ensures secret == REDACTED
  {
    var k := |REDACTED|;
    assert forall x :: 0 <= x < k ==> after[x] == REDACTED[x - 0] && !IsWhitespace(REDACTED[x]);
    assert |secret| < |after| ==> IsWhitespace(after[|secret|]);
    assert forall x :: 0 <= x < |secret| ==> after[x] == secret[x];
    assert |secret| == k;
  }

  lemma CleanIsUnchanged(m: string, s: string)
    requires Marker(m) && Clean(m, s)
    ensures Pass(m, s) == s
  {
    PassMasksSecretsOnly(m, s, 0);
    assert s[0..] == s;
    CleanIsFixed(m, Dissect(m, s, 0));
  }

  lemma RedactIsIdempotent(s: string)
    ensures RedactAll(RedactAll(s)) == RedactAll(s)
  {
    TheMarkers();
    RedactedIsClean(s);
    CleanIsUnchanged(MARKERS[0], RedactAll(s));
    CleanIsUnchanged(MARKERS[1], RedactAll(s));
    CleanIsUnchanged(MARKERS[2], RedactAll(s));
  }
}
