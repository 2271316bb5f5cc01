/** Strings as the agent uses them: character classes, byte order, padded decimal numbers. */
module Text {

  datatype Option<+T> = None | Some(value: T)

  const U64_MAX: nat := 0xFFFF_FFFF_FFFF_FFFF
  const U32_MAX: nat := 0xFFFF_FFFF

  type U64 = n: nat | n <= U64_MAX
  type U32 = n: nat | n <= U32_MAX

  // ----- character classes -----

  predicate IsDigit(c: char) { '0' <= c <= '9' }

  predicate IsAsciiAlphabetic(c: char) { 'a' <= c <= 'z' || 'A' <= c <= 'Z' }

  predicate IsAsciiAlphanumeric(c: char) { IsDigit(c) || IsAsciiAlphabetic(c) }

  /** The Unicode White_Space property, as `char::is_whitespace` has it. */
  predicate IsWhitespace(c: char) {
    var n := c as int;
    || 0x9 <= n <= 0xD || n == 0x20 || n == 0x85 || n == 0xA0 || n == 0x1680
    || 0x2000 <= n <= 0x200A || n == 0x2028 || n == 0x2029 || n == 0x202F || n == 0x205F || n == 0x3000
  }

  predicate AllDigits(s: string) { forall i :: 0 <= i < |s| ==> IsDigit(s[i]) }

  // ----- trimming -----

  function TrimStart(drop: char -> bool, s: string): string {
    if s != [] && drop(s[0]) then TrimStart(drop, s[1..]) else s
  }

  function TrimEnd(drop: char -> bool, s: string): string {
    if s != [] && drop(s[|s| - 1]) then TrimEnd(drop, s[..|s| - 1]) else s
  }

  function Trim(drop: char -> bool, s: string): string { TrimEnd(drop, TrimStart(drop, s)) }

  lemma {:induction false} TrimStartIsSuffix(drop: char -> bool, s: string) returns (lo: nat)
    ensures lo <= |s| && TrimStart(drop, s) == s[lo..]
    ensures forall i :: 0 <= i < lo ==> drop(s[i])
    ensures lo < |s| ==> !drop(s[lo])
  {
    lo := 0;
    if s != [] && drop(s[0]) {
      var k := TrimStartIsSuffix(drop, s[1..]);
      assert forall i :: 1 <= i < |s| ==> s[i] == s[1..][i - 1];
      lo := k + 1;
    }
  }

  lemma {:induction false} TrimEndIsPrefix(drop: char -> bool, s: string) returns (hi: nat)
    ensures hi <= |s| && TrimEnd(drop, s) == s[..hi]
    ensures forall i :: hi <= i < |s| ==> drop(s[i])
    ensures hi > 0 ==> !drop(s[hi - 1])
  {
    hi := |s|;
    if s != [] && drop(s[|s| - 1]) {
      hi := TrimEndIsPrefix(drop, s[..|s| - 1]);
      assert s[..|s| - 1][..hi] == s[..hi];
    }
  }

  /** Trimming returns the piece of its input between the first and the last kept character. */
  lemma TrimIsSlice(drop: char -> bool, s: string) returns (lo: nat, hi: nat)
    ensures lo <= hi <= |s| && Trim(drop, s) == s[lo..hi]
    ensures forall i :: 0 <= i < lo || hi <= i < |s| ==> drop(s[i])
    ensures lo < hi ==> !drop(s[lo]) && !drop(s[hi - 1])
  {
    lo := TrimStartIsSuffix(drop, s);
    var t := s[lo..];
    var k := TrimEndIsPrefix(drop, t);
    hi := lo + k;
    assert t[..k] == s[lo..hi];
    assert forall i :: hi <= i < |s| ==> s[i] == t[i - lo];
    assert forall i :: lo <= i < |s| ==> t[i - lo] == s[i];
  }

  lemma TrimOfTrimmed(drop: char -> bool, s: string)
    requires s == [] || (!drop(s[0]) && !drop(s[|s| - 1]))
    ensures Trim(drop, s) == s
  {
  }

  // ----- byte order -----

  /** `str` comparison: UTF-8 byte order, which is the order of the scalar values. */
  predicate Less(a: string, b: string)
  {
    if b == [] then false
    else if a == [] then true
    else a[0] < b[0] || (a[0] == b[0] && Less(a[1..], b[1..]))
  }

  lemma LessIrreflexive(a: string)
    ensures !Less(a, a)
  {
  }

  lemma LessTransitive(a: string, b: string, c: string)
    requires Less(a, b) && Less(b, c)
    ensures Less(a, c)
  {
  }

  lemma LessTotal(a: string, b: string)
    ensures Less(a, b) || a == b || Less(b, a)
  {
    if a != [] && b != [] && a[0] == b[0] {
      LessTotal(a[1..], b[1..]);
      assert a == [a[0]] + a[1..] && b == [b[0]] + b[1..];
    }
  }

  lemma LessAsymmetric(a: string, b: string)
    requires Less(a, b)
    ensures !Less(b, a) && a != b
  {
    LessIrreflexive(a);
    if Less(b, a) { LessTransitive(a, b, a); }
  }

  /** Equal-length heads decide the order of concatenations, and the tails only break ties. */
  lemma {:induction false} LessConcat(x: string, y: string, u: string, v: string)
    requires |x| == |y|
    ensures Less(x + u, y + v) <==> Less(x, y) || (x == y && Less(u, v))
  {
    if x == [] {
      assert x + u == u && y + v == v;
    } else {
      assert (x + u)[1..] == x[1..] + u && (y + v)[1..] == y[1..] + v;
      LessConcat(x[1..], y[1..], u, v);
      assert x == [x[0]] + x[1..] && y == [y[0]] + y[1..];
    }
  }

  // ----- decimal numbers -----

  function DigitChar(d: nat): (c: char)
    requires d < 10
    ensures IsDigit(c) && c as int == '0' as int + d
  {
    ('0' as int + d) as char
  }

  function DigitValue(c: char): (d: nat)
    requires IsDigit(c)
  {
    c as int - '0' as int
  }

  /** Rust's `Display` of an unsigned integer. */
  function Decimal(n: nat): (s: string)
    ensures s != [] && AllDigits(s)
  {
    if n < 10 then [DigitChar(n)] else Decimal(n / 10) + [DigitChar(n % 10)]
  }

  /** The number a digit string denotes. */
  function Value(s: string): nat
    requires AllDigits(s)
  {
    if s == [] then 0 else Value(s[..|s| - 1]) * 10 + DigitValue(s[|s| - 1])
  }

  lemma {:induction false} ValueOfDecimal(n: nat)
    ensures Value(Decimal(n)) == n
  {
    if n < 10 {
      assert Decimal(n)[..0] == [];
    } else {
      ValueOfDecimal(n / 10);
      assert Decimal(n)[..|Decimal(n)| - 1] == Decimal(n / 10);
    }
  }

  lemma DecimalInjective(m: nat, n: nat)
    requires Decimal(m) == Decimal(n)
    ensures m == n
  {
    ValueOfDecimal(m);
    ValueOfDecimal(n);
  }

  function Zeros(k: nat): (s: string)
    ensures |s| == k && AllDigits(s)
  {
    seq(k, i => '0')
  }

  /** `{n:0w}`: the decimal form, left-padded with zeros to at least `w` characters. */
  function Padded(n: nat, w: nat): (s: string)
    ensures AllDigits(s)
  {
    var d := Decimal(n);
    if |d| >= w then d else Zeros(w - |d|) + d
  }

  function Pow10(k: nat): nat { if k == 0 then 1 else 10 * Pow10(k - 1) }

  lemma {:induction false} DecimalLength(n: nat, w: nat)
    requires w > 0 && n < Pow10(w)
    ensures |Decimal(n)| <= w
  {
    if n >= 10 { DecimalLength(n / 10, w - 1); }
  }

  lemma {:induction false} ValueOfZeros(k: nat, s: string)
    requires AllDigits(s)
    ensures Value(Zeros(k) + s) == Value(s)
  {
    var z := Zeros(k) + s;
    if s == [] {
      if k > 0 {
        assert z[..|z| - 1] == Zeros(k - 1) + [];
        ValueOfZeros(k - 1, []);
      } else {
        assert z == [];
      }
    } else {
      assert z[..|z| - 1] == Zeros(k) + s[..|s| - 1];
      ValueOfZeros(k, s[..|s| - 1]);
    }
  }

  lemma PaddedFacts(n: nat, w: nat)
    requires w > 0 && n < Pow10(w)
    ensures |Padded(n, w)| == w
    ensures Value(Padded(n, w)) == n
  {
    DecimalLength(n, w);
    ValueOfDecimal(n);
    var d := Decimal(n);
    ValueOfZeros(w - |d|, d);
  }

  /** Among digit strings of one length, byte order is numeric order. */
  lemma {:induction false} DigitOrder(a: string, b: string)
    requires AllDigits(a) && AllDigits(b) && |a| == |b|
    ensures Less(a, b) <==> Value(a) < Value(b)
    ensures a == b <==> Value(a) == Value(b)
  {
    if a != [] {
      var k := |a| - 1;
      DigitOrder(a[..k], b[..k]);
      assert a == a[..k] + [a[k]] && b == b[..k] + [b[k]];
      LessConcat(a[..k], b[..k], [a[k]], [b[k]]);
    }
  }

  // ----- parsing u64 -----

  /** `str::parse::<u64>`: an optional `+`, then at least one digit, and no overflow. */
  function ParseU64(s: string): Option<U64>
  {
    var t := if s != [] && s[0] == '+' then s[1..] else s;
    if t == [] || !AllDigits(t) then None
    else if Value(t) > U64_MAX then None
    else Some(Value(t))
  }

  lemma ParseOfDecimal(n: U64)
    ensures ParseU64(Decimal(n)) == Some(n)
  {
    ValueOfDecimal(n);
  }

  /** What is read as a u64: one or more digits, perhaps after a plus sign, of a value in range. */
  lemma ParsesExactly(s: string, n: U64)
    ensures ParseU64(s) == Some(n) <==> exists t :: t != [] && AllDigits(t) && Value(t) == n && (s == t || s == "+" + t)
  {
    hide Value;
    if s != [] && s[0] == '+' {
      assert s == "+" + s[1..];
    }
    forall t | t != [] && AllDigits(t) && Value(t) == n && (s == t || s == "+" + t) ensures ParseU64(s) == Some(n) {
      if s == t { assert IsDigit(s[0]); } else { assert s[1..] == t && s[0] == '+'; }
    }
  }

  predicate Contains(s: string, part: string) {
    part <= s || (s != [] && Contains(s[1..], part))
  }

  lemma {:induction false} ContainsThere(before: string, part: string, after: string)
    ensures Contains(before + part + after, part)
  {
    var s := before + part + after;
    if before == [] {
      assert s == part + after;
    } else {
      assert s[1..] == before[1..] + part + after;
      ContainsThere(before[1..], part, after);
    }
  }

  lemma {:induction false} ContainsExactly(s: string, part: string)
    ensures Contains(s, part) <==> exists before, after :: s == before + part + after
  {
    if part <= s {
      assert s == [] + part + s[|part|..];
    } else if s != [] {
      ContainsExactly(s[1..], part);
      if before, after :| s[1..] == before + part + after {
        assert s == [s[0]] + s[1..] && s == ([s[0]] + before) + part + after;
      }
    }
    forall before, after | s == before + part + after ensures Contains(s, part) { ContainsThere(before, part, after); }
  }

  // ----- splitting -----

  /** Index of the first `c` in `s`. */
  function IndexOf(s: string, c: char): (r: Option<nat>)
    ensures r.Some? ==> r.value < |s| && s[r.value] == c && c !in s[..r.value]
    ensures r.None? ==> c !in s
  {
    if s == [] then None
    else if s[0] == c then Some(0)
    else match IndexOf(s[1..], c)
      case None => None
      case Some(i) => assert s[..i + 1] == [s[0]] + s[1..][..i]; Some(i + 1)
  }

  lemma {:induction false} IndexOfFirst(before: string, c: char, after: string)
    requires c !in before
    ensures IndexOf(before + [c] + after, c) == Some(|before|)
  {
    var s := before + [c] + after;
    if before != [] {
      assert s[1..] == before[1..] + [c] + after;
      assert s[0] == before[0];
      IndexOfFirst(before[1..], c, after);
    }
  }

  lemma Assoc<T>(a: seq<T>, b: seq<T>, c: seq<T>)
    ensures (a + b) + c == a + (b + c)
  {
  }

  function Flatten<T>(parts: seq<seq<T>>): seq<T> {
    if parts == [] then [] else parts[0] + Flatten(parts[1..])
  }
}
