/** Names and addresses derived from untrusted identifiers. */
module GuestNames {
  import opened Text

  // ----- path segments (microVM keys) -----

  predicate IsSegmentChar(c: char) { IsAsciiAlphanumeric(c) || c == '-' || c == '_' }

  predicate AllSegmentChars(s: string) { forall i :: 0 <= i < |s| ==> IsSegmentChar(s[i]) }

  function SegmentChars(s: string): (t: string)
    ensures |t| == |s| && AllSegmentChars(t)
    ensures forall i :: 0 <= i < |s| ==> t[i] == if IsSegmentChar(s[i]) then s[i] else '-'
  {
    seq(|s|, i requires 0 <= i < |s| => if IsSegmentChar(s[i]) then s[i] else '-')
  }

  predicate StartsDouble(s: string) { |s| > 1 && s[0] == '-' && s[1] == '-' }

  /** `replace("--", "-")`: one sweep, left to right, without overlaps. */
  function HalveDashes(s: string): (t: string)
    ensures |t| <= |s|
  {
    if StartsDouble(s) then "-" + HalveDashes(s[2..])
    else if s == [] then []
    else [s[0]] + HalveDashes(s[1..])
  }

  predicate HasDoubleDash(s: string) { exists i :: 0 <= i < |s| - 1 && s[i] == '-' && s[i + 1] == '-' }

  /** What the repeated sweeps amount to: every maximal run of dashes becomes one dash. */
  function CollapseDashes(s: string): string {
    if s == [] then []
    else if StartsDouble(s) then CollapseDashes(s[1..])
    else [s[0]] + CollapseDashes(s[1..])
  }

  lemma {:induction false} HalvePreservesCollapse(s: string)
    ensures CollapseDashes(HalveDashes(s)) == CollapseDashes(s)
    ensures s != [] ==> HalveDashes(s) != [] && HalveDashes(s)[0] == s[0]
  {
    if StartsDouble(s) {
      var rest := s[2..];
      assert s[1..] == "-" + rest && s[1..][1..] == rest;
      HalvePreservesCollapse(rest);
      assert ("-" + HalveDashes(rest))[1..] == HalveDashes(rest);
    } else if s != [] {
      HalvePreservesCollapse(s[1..]);
      var t := HalveDashes(s);
      assert t[1..] == HalveDashes(s[1..]);
    }
  }

  lemma {:induction false} HalveShrinks(s: string)
    requires HasDoubleDash(s)
    ensures |HalveDashes(s)| < |s|
  {
    if !StartsDouble(s) {
      var i :| 0 <= i < |s| - 1 && s[i] == '-' && s[i + 1] == '-';
      assert s[1..][i - 1] == '-' && s[1..][i] == '-';
      HalveShrinks(s[1..]);
    }
  }

  lemma {:induction false} CollapseFacts(s: string)
    ensures !HasDoubleDash(CollapseDashes(s))
    ensures s != [] ==> CollapseDashes(s) != [] && CollapseDashes(s)[0] == s[0]
    ensures !HasDoubleDash(s) ==> CollapseDashes(s) == s
    ensures forall c :: c in CollapseDashes(s) ==> c in s
  {
    if s != [] {
      var t, rest := CollapseDashes(s), s[1..];
      CollapseFacts(rest);
      assert s == [s[0]] + rest;
      if HasDoubleDash(rest) {
        var i :| 0 <= i < |rest| - 1 && rest[i] == '-' && rest[i + 1] == '-';
        assert s[i + 1] == '-' && s[i + 2] == '-';
      }
      if !StartsDouble(s) {
        var u := CollapseDashes(rest);
        forall i | 0 <= i < |t| - 1 ensures !(t[i] == '-' && t[i + 1] == '-') {
          if i == 0 { assert t[1] == u[0] == rest[0] == s[1]; } else { assert t[i] == u[i - 1] && t[i + 1] == u[i]; }
        }
      }
    }
  }

  function SafePathSegment(value: string): string {
    var out := Trim((c: char) => c == '-', CollapseDashes(SegmentChars(value)));
    if out == [] then "default" else out
  }

  /** The code sweeps until no double dash is left; it ends, with every run of dashes collapsed. */
  method MakeSafePathSegment(value: string) returns (segment: string)
    ensures segment == SafePathSegment(value)
  {
    var out := SegmentChars(value);
    while HasDoubleDash(out)
      invariant CollapseDashes(out) == CollapseDashes(SegmentChars(value))
      decreases |out|
    {
      HalvePreservesCollapse(out);
      HalveShrinks(out);
      out := HalveDashes(out);
    }
    CollapseFacts(out);
    out := Trim((c: char) => c == '-', out);
    segment := if out == [] then "default" else out;
  }

  predicate CleanSegment(s: string) {
    s != [] && AllSegmentChars(s) && !HasDoubleDash(s) && s[0] != '-' && s[|s| - 1] != '-'
  }

  lemma SliceIsClean(t: string, lo: nat, hi: nat)
    requires AllSegmentChars(t) && !HasDoubleDash(t) && lo < hi <= |t| && t[lo] != '-' && t[hi - 1] != '-'
    ensures CleanSegment(t[lo..hi])
  {
    var s := t[lo..hi];
    forall i | 0 <= i < |s| - 1 ensures !(s[i] == '-' && s[i + 1] == '-') {
      assert s[i] == t[lo + i] && s[i + 1] == t[lo + i + 1];
    }
  }

  lemma CollapsedChars(s: string)
    requires AllSegmentChars(s)
    ensures AllSegmentChars(CollapseDashes(s)) && !HasDoubleDash(CollapseDashes(s))
  {
    var t := CollapseDashes(s);
    CollapseFacts(s);
    forall i | 0 <= i < |t| ensures IsSegmentChar(t[i]) { assert t[i] in s; }
  }

  lemma DefaultIsClean()
    ensures CleanSegment("default")
  {
  }

  /** Segments are non-empty, use only `[A-Za-z0-9_-]`, and have no leading, trailing or double dash. */
  lemma SafePathSegmentIsClean(value: string)
    ensures CleanSegment(SafePathSegment(value))
  {
    var t := CollapseDashes(SegmentChars(value));
    CollapsedChars(SegmentChars(value));
    DefaultIsClean();
    var lo, hi := TrimIsSlice((c: char) => c == '-', t);
    hide CleanSegment, AllSegmentChars, HasDoubleDash, CollapseDashes, SegmentChars;
    if lo < hi { SliceIsClean(t, lo, hi); }
  }

  /** Names already clean are left alone, and only those. */
  lemma CleanSegmentsAreFixed(value: string)
    ensures SafePathSegment(value) == value <==> CleanSegment(value)
  {
    SafePathSegmentIsClean(value);
    if CleanSegment(value) {
      assert SegmentChars(value) == value;
      CollapseFacts(value);
      TrimOfTrimmed((c: char) => c == '-', value);
    }
  }

  lemma SafePathSegmentIsIdempotent(value: string)
    ensures SafePathSegment(SafePathSegment(value)) == SafePathSegment(value)
  {
    SafePathSegmentIsClean(value);
    CleanSegmentsAreFixed(SafePathSegment(value));
  }

  /** The letters, digits and underscores of a text, in order. */
  function Content(s: string): string {
    if s == [] then []
    else (if IsAsciiAlphanumeric(s[0]) || s[0] == '_' then [s[0]] else []) + Content(s[1..])
  }

  lemma {:induction false} ContentAppend(a: string, b: string)
    ensures Content(a + b) == Content(a) + Content(b)
  {
    if a == [] {
      assert a + b == b;
    } else {
      assert (a + b)[1..] == a[1..] + b;
      ContentAppend(a[1..], b);
    }
  }

  lemma {:induction false} CharsKeepContent(s: string)
    ensures Content(SegmentChars(s)) == Content(s)
  {
    if s != [] {
      CharsKeepContent(s[1..]);
      assert SegmentChars(s)[1..] == SegmentChars(s[1..]);
    }
  }

  lemma {:induction false} CollapseKeepsContent(s: string)
    ensures Content(CollapseDashes(s)) == Content(s)
  {
    if s != [] {
      CollapseKeepsContent(s[1..]);
      if !StartsDouble(s) { assert CollapseDashes(s)[1..] == CollapseDashes(s[1..]); }
    }
  }

  lemma {:induction false} DashesHaveNone(s: string)
    requires forall i :: 0 <= i < |s| ==> s[i] == '-'
    ensures Content(s) == []
  {
    if s != [] { DashesHaveNone(s[1..]); }
  }

  lemma TrimKeepsContent(s: string)
    ensures Content(Trim((c: char) => c == '-', s)) == Content(s)
  {
    var lo, hi := TrimIsSlice((c: char) => c == '-', s);
    assert s == s[..lo] + (s[lo..hi] + s[hi..]);
    ContentAppend(s[..lo], s[lo..hi] + s[hi..]);
    ContentAppend(s[lo..hi], s[hi..]);
    DashesHaveNone(s[..lo]);
    DashesHaveNone(s[hi..]);
  }

  lemma {:induction false} NoContentIsDashes(s: string)
    requires AllSegmentChars(s) && Content(s) == []
    ensures forall i :: 0 <= i < |s| ==> s[i] == '-'
  {
    if s != [] { NoContentIsDashes(s[1..]); }
  }

  lemma NothingLeft(t: string)
    requires forall i :: 0 <= i < |t| ==> t[i] == '-'
    ensures Trim((c: char) => c == '-', t) == []
  {
    var lo, hi := TrimIsSlice((c: char) => c == '-', t);
  }

  /** A segment keeps every letter, digit and underscore of the value, in order, and adds none; only a
      value without any is replaced. */
  lemma SafePathSegmentKeepsContent(value: string)
    ensures if Content(value) == [] then SafePathSegment(value) == "default"
            else Content(SafePathSegment(value)) == Content(value)
  {
    var chars := SegmentChars(value);
    var t := CollapseDashes(chars);
    CharsKeepContent(value);
    CollapseKeepsContent(chars);
    TrimKeepsContent(t);
    CollapsedChars(chars);
    if Content(value) == [] {
      NoContentIsDashes(t);
      NothingLeft(t);
    } else {
      assert Content([]) == [];
    }
  }

  // ----- container names -----

  function Lower(c: char): (d: char)
    ensures IsAsciiAlphanumeric(c) ==> IsAsciiAlphanumeric(d)
  {
    if 'A' <= c <= 'Z' then (c as int - 'A' as int + 'a' as int) as char else c
  }

  function NameChars(s: string): (t: string)
    ensures |t| == |s|
    ensures forall i :: 0 <= i < |t| ==> t[i] == '-' || '0' <= t[i] <= '9' || 'a' <= t[i] <= 'z'
  {
    seq(|s|, i requires 0 <= i < |s| => if IsAsciiAlphanumeric(s[i]) || s[i] == '-' then Lower(s[i]) else '-')
  }

  function ContainerName(attemptId: string): string {
    var trimmed := Trim((c: char) => c == '-', NameChars(attemptId));
    var suffix := if trimmed == [] then "job" else trimmed;
    "statix-" + if |suffix| <= 56 then suffix else suffix[..56]
  }

  /** The name pattern of the privileged helper: `[a-zA-Z0-9][a-zA-Z0-9_.-]{0,62}`. */
  predicate HelperAccepts(name: string) {
    && 1 <= |name| <= 63
    && IsAsciiAlphanumeric(name[0])
    && forall i :: 0 <= i < |name| ==> IsAsciiAlphanumeric(name[i]) || name[i] == '_' || name[i] == '.' || name[i] == '-'
  }

  predicate NameAlphabet(s: string) {
    forall i :: 0 <= i < |s| ==> s[i] == '-' || '0' <= s[i] <= '9' || 'a' <= s[i] <= 'z'
  }

  lemma ContainerNameShape(attemptId: string)
    ensures NameAlphabet(ContainerName(attemptId)) && 8 <= |ContainerName(attemptId)| <= 63
    ensures "statix-" <= ContainerName(attemptId) && ContainerName(attemptId)[7] != '-'
  {
    var t := NameChars(attemptId);
    var lo, hi := TrimIsSlice((c: char) => c == '-', t);
    var suffix := if lo == hi then "job" else t[lo..hi];
    assert NameAlphabet(suffix);
    var cut := if |suffix| <= 56 then suffix else suffix[..56];
    assert NameAlphabet(cut) && cut[0] == suffix[0];
    assert NameAlphabet("statix-");
  }

  /** How a character of an attempt id is written. */
  predicate WrittenAs(c: char, d: char) {
    if 'A' <= c <= 'Z' then d as int == c as int + 32
    else if 'a' <= c <= 'z' || '0' <= c <= '9' then d == c
    else d == '-'
  }

  /** A container name is the prefix and the attempt id from its first to its last letter or digit, cut
      at 56 characters, in lower case, with dashes for everything else; or the prefix and `job`. */
  lemma ContainerNameExactly(attemptId: string) returns (lo: nat, hi: nat)
    ensures lo <= hi <= |attemptId|
    ensures forall i :: 0 <= i < lo || hi <= i < |attemptId| ==> !IsAsciiAlphanumeric(attemptId[i])
    ensures var name := ContainerName(attemptId);
            if lo == hi then name == "statix-job"
            else
              && IsAsciiAlphanumeric(attemptId[lo]) && IsAsciiAlphanumeric(attemptId[hi - 1])
              && "statix-" <= name && |name| == 7 + (if hi - lo < 56 then hi - lo else 56)
              && forall i :: 7 <= i < |name| ==> WrittenAs(attemptId[lo + i - 7], name[i])
  {
    var t := NameChars(attemptId);
    lo, hi := TrimIsSlice((c: char) => c == '-', t);
    forall i | 0 <= i < |t| ensures WrittenAs(attemptId[i], t[i]) && (IsAsciiAlphanumeric(attemptId[i]) <==> t[i] != '-') {}
    assert "statix-" + "job" == "statix-job";
  }

  /** Every attempt id yields a name the helper accepts. */
  lemma ContainerNameIsAccepted(attemptId: string)
    ensures HelperAccepts(ContainerName(attemptId))
  {
    ContainerNameShape(attemptId);
    var name := ContainerName(attemptId);
    assert name[0] == 's';
    forall i | 0 <= i < |name| ensures IsAsciiAlphanumeric(name[i]) || name[i] == '-' {
      assert name[i] == '-' || '0' <= name[i] <= '9' || 'a' <= name[i] <= 'z';
    }
  }

  // ----- guest addresses -----

  /** Sum of the bytes of an ASCII name. */
  function ByteSum(name: string): nat {
    if name == [] then 0 else ByteSum(name[..|name| - 1]) + name[|name| - 1] as int
  }

  /** `fold(0u16, wrapping_add)` */
  function WrappingSum(name: string): (r: nat)
    ensures r < 0x1_0000
  {
    if name == [] then 0 else (WrappingSum(name[..|name| - 1]) + name[|name| - 1] as int) % 0x1_0000
  }

  lemma {:induction false} SumIsSmall(name: string)
    requires NameAlphabet(name)
    ensures ByteSum(name) <= 122 * |name|
    ensures |name| <= 63 ==> WrappingSum(name) == ByteSum(name)
  {
    if name != [] { SumIsSmall(name[..|name| - 1]); }
  }

  /** The 16-bit sum of a container name never wraps. */
  lemma SumNeverWraps(attemptId: string)
    ensures WrappingSum(ContainerName(attemptId)) == ByteSum(ContainerName(attemptId)) < 0x1_0000
  {
    ContainerNameShape(attemptId);
    SumIsSmall(ContainerName(attemptId));
  }

  type Octet = n: nat | n < 256

  /** The bridge's address and prefix length; the parser accepts at most 30. */
  datatype Network = Network(net: seq<Octet>, gateway: Octet, prefix: nat) {
    predicate Valid() { |net| == 3 && prefix <= 30 }
  }

  function HostOctet(name: string): (h: Octet)
    ensures 10 <= h < 250
  {
    10 + WrappingSum(name) % 240
  }

  /** `saturating_add(1)` on u8 */
  function Next(h: Octet): Octet { if h == 255 then 255 else h + 1 }

  /** The last octet of the guest; the first three are the gateway's. */
  function GuestOctet(n: Network, name: string): Octet {
    var h := HostOctet(name);
    if h == n.gateway then Next(h) else h
  }

  function Upper(net: seq<Octet>): nat
    requires |net| == 3
  {
    net[0] as nat * 65536 + net[1] as nat * 256 + net[2] as nat
  }

  /** An IPv4 address as a number. */
  function Address(net: seq<Octet>, last: Octet): nat
    requires |net| == 3
  {
    Upper(net) * 256 + last
  }

  function Pow2(k: nat): nat { if k == 0 then 1 else 2 * Pow2(k - 1) }

  /** Addresses in one block of the subnet size. */
  function SubnetSize(prefix: nat): (z: nat)
    requires prefix <= 32
  {
    Pow2(32 - prefix)
  }

  predicate UsableHost(n: Network, last: Octet)
    requires n.Valid()
  {
    Pow2Positive(32 - n.prefix);
    var z, a, g := SubnetSize(n.prefix), Address(n.net, last), Address(n.net, n.gateway);
    && a / z == g / z      // in the gateway's subnet
    && a % z != 0          // not the network address
    && a % z != z - 1      // not the broadcast address
    && a != g              // not the gateway
  }

  lemma {:induction false} Pow2Positive(k: nat)
    ensures Pow2(k) > 0
  {
    if k > 0 { Pow2Positive(k - 1); }
  }

  lemma {:induction false} Pow2Multiple(k: nat) returns (q: nat)
    requires k >= 8
    ensures q > 0 && Pow2(k) == 256 * q
  {
    if k == 8 {
      assert Pow2(8) == 2 * Pow2(7) == 4 * Pow2(6) == 8 * Pow2(5) == 16 * Pow2(4);
      assert Pow2(4) == 2 * Pow2(3) == 4 * Pow2(2) == 8 * Pow2(1) == 16 * Pow2(0);
      q := 1;
    } else {
      var p := Pow2Multiple(k - 1);
      q := 2 * p;
    }
  }

  /** Splitting a number into blocks of 256 * q. */
  lemma BlocksOf256(base: nat, last: nat, q: nat)
    requires q > 0 && last < 256
    ensures (base * 256 + last) / (256 * q) == base / q
    ensures (base * 256 + last) % (256 * q) == (base % q) * 256 + last
  {
    var b, r := base / q, base % q;
    var z := 256 * q;
    assert base == q * b + r;
    var rem := r * 256 + last;
    assert base * 256 + last == z * b + rem by {
      assert (q * b + r) * 256 == z * b + r * 256;
    }
    assert r * 256 + 255 < q * 256;
    DivModUnique(base * 256 + last, z, b, rem);
  }

  lemma AtLeast(z: nat, d: int)
    requires z > 0 && d >= 1
    ensures z * d >= z
  {
  }

  lemma Distribute(z: nat, a: int, b: int)
    ensures z * (a - b) == z * a - z * b
    ensures z * (a + b) == z * a + z * b
  {
  }

  lemma DivModUnique(x: nat, z: nat, b: nat, rem: nat)
    requires z > 0 && x == z * b + rem && rem < z
    ensures x / z == b && x % z == rem
  {
    var b', r' := x / z, x % z;
    assert x == z * b' + r';
    if b > b' {
      Distribute(z, b, b');
      AtLeast(z, b - b');
    } else if b < b' {
      Distribute(z, b', b);
      AtLeast(z, b' - b);
    }
  }

  /** With a prefix of at most 24 the derived address is always a usable host of the gateway's subnet. */
  lemma GuestAddressIsUsable(n: Network, name: string)
    requires n.Valid() && n.prefix <= 24
    ensures UsableHost(n, GuestOctet(n, name))
  {
    var base := Upper(n.net);
    var q := Pow2Multiple(32 - n.prefix);
    var last := GuestOctet(n, name);
    assert 10 <= last <= 250;
    BlocksOf256(base, last, q);
    BlocksOf256(base, n.gateway, q);
    assert (base % q) * 256 + last < 256 * q - 1 by {
      assert base % q <= q - 1;
      assert (base % q) * 256 <= (q - 1) * 256;
    }
  }

  lemma SumSnoc(s: string, c: char)
    requires WrappingSum(s) + c as int < 0x1_0000
    ensures WrappingSum(s + [c]) == WrappingSum(s) + c as int
  {
    assert (s + [c])[..|s|] == s;
  }

  lemma TwoMore(s: string, c: char, d: char)
    requires WrappingSum(s) + c as int + d as int < 0x1_0000
    ensures WrappingSum(s + [c, d]) == WrappingSum(s) + c as int + d as int
  {
    hide WrappingSum;
    SumSnoc(s, c);
    SumSnoc(s + [c], d);
    assert s + [c] + [d] == s + [c, d];
  }

  lemma FourMore(s: string, c: char, d: char, e: char, f: char)
    requires WrappingSum(s) + c as int + d as int + e as int + f as int < 0x1_0000
    ensures WrappingSum(s + [c, d, e, f]) == WrappingSum(s) + c as int + d as int + e as int + f as int
  {
    hide WrappingSum;
    TwoMore(s, c, d);
    TwoMore(s + [c, d], e, f);
    assert s + [c, d] + [e, f] == s + [c, d, e, f];
  }

  lemma SumOfStat()
    ensures WrappingSum(['s', 't', 'a', 't']) == 444
  {
    FourMore([], 's', 't', 'a', 't');
    assert [] + ['s', 't', 'a', 't'] == ['s', 't', 'a', 't'];
  }

  lemma SumOfPrefix(c: char)
    requires 'a' <= c <= 'z'
    ensures WrappingSum("statix-" + [c]) == 714 + c as int
  {
    SumOfStat();
    hide WrappingSum;
    FourMore(['s', 't', 'a', 't'], 'i', 'x', '-', c);
    assert "statix-" + [c] == ['s', 't', 'a', 't'] + ['i', 'x', '-', c];
  }

  /** An attempt id of lower-case letters is only prefixed. */
  lemma LettersStay(id: string)
    requires 0 < |id| <= 56 && forall i :: 0 <= i < |id| ==> 'a' <= id[i] <= 'z'
    ensures ContainerName(id) == "statix-" + id
  {
    assert NameChars(id) == id;
    TrimOfTrimmed((c: char) => c == '-', id);
  }

  /** Attempt ids whose containers land in either half of the last octet. */
  lemma IdFor(low: bool) returns (id: string)
    ensures HostOctet(ContainerName(id)) == if low then 101 else 248
  {
    hide ContainerName, WrappingSum;
    id := if low then "a" else "zz";
    LettersStay(id);
    SumOfPrefix(id[0]);
    assert 'a' as int == 97 && 'z' as int == 122;
    if low {
      assert ['a'] == id;
    } else {
      SumSnoc("statix-" + ['z'], 'z');
      Assoc("statix-", ['z'], ['z']);
      assert ['z'] + ['z'] == id;
    }
  }

  lemma Pow2Small(k: nat)
    requires k <= 7
    ensures Pow2(k) in {1, 2, 4, 8, 16, 32, 64, 128}
  {
    if k == 0 { } else if k == 1 { } else if k == 2 { assert Pow2(2) == 2 * Pow2(1); }
    else if k == 3 { assert Pow2(3) == 2 * Pow2(2) == 4 * Pow2(1); }
    else {
      assert Pow2(4) == 2 * Pow2(3) == 4 * Pow2(2) == 8 * Pow2(1) == 16;
      assert Pow2(5) == 32 && Pow2(6) == 64 && Pow2(7) == 128;
    }
  }

  /** The derived address is right for every container exactly when the prefix is at most 24: with a
      longer prefix the subnet covers half of the last octet at most, and some attempt id gives a name
      that lands in the other half. */
  lemma UsableForEveryContainerExactly(n: Network)
    requires n.Valid()
    ensures (forall id :: UsableHost(n, GuestOctet(n, ContainerName(id)))) <==> n.prefix <= 24
  {
    if n.prefix <= 24 {
      forall id ensures UsableHost(n, GuestOctet(n, ContainerName(id))) { GuestAddressIsUsable(n, ContainerName(id)); }
    } else {
      var id := IdFor(n.gateway >= 128);
      var last := GuestOctet(n, ContainerName(id));
      assert last == if n.gateway >= 128 then 101 else 248;
      OtherHalf(n, last);
    }
  }

  lemma OtherHalf(n: Network, last: Octet)
    requires n.Valid() && n.prefix > 24 && (last < 128 <==> n.gateway >= 128)
    ensures !UsableHost(n, last)
  {
    var z, a, g := SubnetSize(n.prefix), Address(n.net, last), Address(n.net, n.gateway);
    Pow2Positive(32 - n.prefix);
    Pow2Small(32 - n.prefix);
    hide Pow2, Upper;
    assert a / 128 == 2 * Upper(n.net) + last / 128;
    assert g / 128 == 2 * Upper(n.net) + n.gateway / 128;
    hide Address;
    HalfOf(a, z);
    HalfOf(g, z);
  }

  /** Numbers in one block of size z are in one block of size 128. */
  lemma HalfOf(x: nat, z: nat)
    requires z in {1, 2, 4, 8, 16, 32, 64, 128}
    ensures x / 128 == (x / z) / (128 / z)
  {
    if z == 1 {
    } else if z == 2 {
    } else if z == 4 {
    } else if z == 8 {
    } else if z == 16 {
    } else if z == 32 {
    } else if z == 64 {
    }
  }
}
