/**
 * IP addresses the way Go's `net` package reads, prints and compares them:
 * `net.ParseCIDR`, `IP.String` and `IPNet.Contains`. An address is an
 * unbounded natural number below 2^32 (IPv4) or 2^128 (IPv6); a CIDR is an
 * address with a prefix length, as in section 3.1 of RFC 4632.
 */
module Net {
  import opened Wrappers
  import opened Text

  const TWO16: nat := 0x1_0000
  const TWO32: nat := 0x1_0000_0000
  const TWO128: nat := 0x1_0000_0000_0000_0000_0000_0000_0000_0000

  type U32 = x: nat | x < 0x1_0000_0000
  type U128 = y: nat | y < 0x1_0000_0000_0000_0000_0000_0000_0000_0000

  datatype Addr = V4(v4: U32) | V6(v6: U128)

  function BitLen(a: Addr): nat { if a.V4? then 32 else 128 }

  /** An address together with the length of its network prefix. */
  datatype Cidr = Cidr(addr: Addr, prefixLen: nat)

  predicate WellFormed(c: Cidr) { c.prefixLen <= BitLen(c.addr) }

  // ---------------------------------------------------------------- powers of two

  function Pow2(k: nat): (p: nat)
    ensures p >= 1
  {
    if k == 0 then 1 else 2 * Pow2(k - 1)
  }

  lemma {:induction false} Pow2Add(a: nat, b: nat)
    ensures Pow2(a + b) == Pow2(a) * Pow2(b)
  {
    if a > 0 {
      Pow2Add(a - 1, b);
      assert Pow2(a + b) == 2 * Pow2(a - 1 + b);
    }
  }

  lemma Pow2Sixteen()
    ensures Pow2(16) == TWO16
  {
    assert Pow2(8) == 0x100;
    Pow2Add(8, 8);
  }

  /** Appending a digit below `m` to a number below `p` stays below `p * m`. */
  lemma ShiftBelow(v: nat, g: nat, p: nat, m: nat)
    requires v < p && g < m
    ensures v * m + g < p * m
  {
    MulNonneg(p - v - 1, m);
    assert p * m == (p - v - 1) * m + v * m + m;
  }

  /** Proof helper: a product of two non-negative numbers is non-negative. */
  lemma MulNonneg(a: int, b: int)
    requires a >= 0 && b >= 0
    ensures a * b >= 0
  {
  }

  lemma Pow2Values()
    ensures Pow2(8) == 0x100 && Pow2(16) == TWO16 && Pow2(32) == TWO32 && Pow2(128) == TWO128
  {
    assert Pow2(8) == 0x100;
    Pow2Add(8, 8);
    assert Pow2(16) == 0x100 * 0x100;
    Pow2Add(16, 16);
    assert Pow2(32) == 0x1_0000 * 0x1_0000;
    Pow2Add(32, 32);
    assert Pow2(64) == 0x1_0000_0000 * 0x1_0000_0000;
    Pow2Add(64, 64);
    assert Pow2(128) == 0x1_0000_0000_0000_0000 * 0x1_0000_0000_0000_0000;
  }

  // ---------------------------------------------------------------- parsing

  /** One IPv4 field: decimal digits without a leading zero, at most 255. */
  function ParseOctet(f: string): (r: Option<nat>)
    ensures r.Some? ==> r.value < 0x100
  {
    if |f| == 0 || !AllDigits(f) || (f[0] == '0' && |f| > 1) || DigitsValue(f) > 0xff then None
    else Some(DigitsValue(f))
  }

  /** A dotted-quad IPv4 address: exactly four fields separated by '.'. */
  function ParseIPv4(s: string): Option<U32>
  {
    var fs := Split(s, '.');
    if |fs| != 4 then None
    else
      match (ParseOctet(fs[0]), ParseOctet(fs[1]), ParseOctet(fs[2]), ParseOctet(fs[3]))
      case (Some(a), Some(b), Some(c), Some(d)) => Some(a * 0x100_0000 + b * 0x1_0000 + c * 0x100 + d)
      case _ => None
  }

  predicate Groups16(gs: seq<nat>) { forall i :: 0 <= i < |gs| ==> gs[i] < TWO16 }

  lemma {:induction false} HexValueBound(s: string)
    requires AllHex(s)
    ensures HexValue(s) < Pow2(4 * |s|)
    decreases |s|
  {
    if |s| > 0 {
      var front := s[..|s| - 1];
      HexValueBound(front);
      Pow2Add(4 * (|s| - 1), 4);
      ShiftBelow(HexValue(front), HexDigitValue(s[|s| - 1]), Pow2(4 * (|s| - 1)), 16);
    }
  }

  /** One IPv6 group: one to four hex digits of either case. */
  function ParseHexGroup(f: string): (r: Option<nat>)
    ensures r.Some? ==> r.value < TWO16
  {
    if 1 <= |f| <= 4 && AllHex(f) then
      HexValueBound(f);
      Pow2Sixteen();
      assert Pow2(4 * |f|) <= Pow2(16) by {
        Pow2Add(4 * |f|, 16 - 4 * |f|);
      }
      Some(HexValue(f))
    else None
  }

  /**
   * Colon-separated fields read as 16-bit groups. When `tail` holds, a last
   * field that contains '.' is an embedded IPv4 address standing for the
   * final two groups.
   */
  function ParseGroups(fs: seq<string>, tail: bool): (r: Option<seq<nat>>)
    ensures r.Some? ==> Groups16(r.value)
    decreases |fs|
  {
    if |fs| == 0 then Some([])
    else if |fs| == 1 && tail && '.' in fs[0] then
      match ParseIPv4(fs[0])
      case None => None
      case Some(x) => Some([x / TWO16, x % TWO16])
    else
      match (ParseHexGroup(fs[0]), ParseGroups(fs[1..], tail))
      case (Some(g), Some(gs)) => Some([g] + gs)
      case _ => None
  }

  /** The big-endian value of a sequence of 16-bit groups. */
  function GroupsValue(gs: seq<nat>): nat
    decreases |gs|
  {
    if |gs| == 0 then 0 else GroupsValue(gs[..|gs| - 1]) * TWO16 + gs[|gs| - 1]
  }

  lemma {:induction false} GroupsValueBound(gs: seq<nat>)
    requires Groups16(gs)
    ensures GroupsValue(gs) < Pow2(16 * |gs|)
    decreases |gs|
  {
    if |gs| > 0 {
      var front := gs[..|gs| - 1];
      GroupsValueBound(front);
      Pow2Add(16 * (|gs| - 1), 16);
      Pow2Sixteen();
      ShiftBelow(GroupsValue(front), gs[|gs| - 1], Pow2(16 * (|gs| - 1)), TWO16);
    }
  }

  function Zeros(k: nat): (z: seq<nat>)
    ensures |z| == k && forall i :: 0 <= i < k ==> z[i] == 0
  {
    if k == 0 then [] else Zeros(k - 1) + [0]
  }

  function Value128(gs: seq<nat>): (y: U128)
    requires |gs| == 8 && Groups16(gs)
  {
    GroupsValueBound(gs);
    Pow2Values();
    GroupsValue(gs)
  }

  /** The position of the first "::" in `s`. */
  function DoubleColon(s: string): (r: Option<nat>)
    ensures r.Some? ==> r.value + 1 < |s| && s[r.value] == ':' && s[r.value + 1] == ':'
    ensures r.Some? ==> forall j :: 0 <= j < r.value ==> !(s[j] == ':' && s[j + 1] == ':')
    ensures r.None? ==> forall j :: 0 <= j < |s| - 1 ==> !(s[j] == ':' && s[j + 1] == ':')
    decreases |s|
  {
    if |s| < 2 then None
    else if s[0] == ':' && s[1] == ':' then Some(0)
    else match DoubleColon(s[1..])
      case None => None
      case Some(i) => Some(i + 1)
  }

  /** The groups written on one side of "::"; the empty text stands for none. */
  function SideGroups(s: string, tail: bool): (r: Option<seq<nat>>)
    ensures r.Some? ==> Groups16(r.value)
  {
    if s == "" then Some([]) else ParseGroups(Split(s, ':'), tail)
  }

  /**
   * An IPv6 address: eight groups, or fewer around one "::" that stands for
   * at least one zero group; only the final groups may be written as a dotted
   * IPv4 address.
   */
  function ParseIPv6(s: string): Option<U128>
  {
    match DoubleColon(s)
    case None =>
      (match ParseGroups(Split(s, ':'), true)
       case Some(gs) => if |gs| == 8 then Some(Value128(gs)) else None
       case None => None)
    case Some(i) =>
      match (SideGroups(s[..i], false), SideGroups(s[i + 2..], true))
      case (Some(l), Some(r)) =>
        if |l| + |r| > 7 then None
        else
          var gs := l + Zeros(8 - |l| - |r|) + r;
          assert Groups16(gs) by {
            forall k | 0 <= k < |gs| ensures gs[k] < TWO16 {
              if k < |l| { assert gs[k] == l[k]; }
              else if k < 8 - |r| { assert gs[k] == 0; }
              else { assert gs[k] == r[k - (8 - |r|)]; }
            }
          }
          Some(Value128(gs))
      case _ => None
  }

  datatype Mark = Dot | Colon | NoMark

  /** Whichever of '.' and ':' comes first decides the address family. */
  function FirstMark(s: string): Mark
    decreases |s|
  {
    if |s| == 0 then NoMark
    else if s[0] == '.' then Dot
    else if s[0] == ':' then Colon
    else FirstMark(s[1..])
  }

  /**
   * `netip.ParseAddr` as `net.ParseCIDR` uses it: a '%' anywhere means a zone
   * or a stray character, and `ParseCIDR` refuses both.
   */
  function ParseAddr(s: string): Option<Addr>
  {
    if '%' in s then None
    else match FirstMark(s)
      case Dot => (match ParseIPv4(s) case Some(x) => Some(V4(x)) case None => None)
      case Colon => (match ParseIPv6(s) case Some(y) => Some(V6(y)) case None => None)
      case NoMark => None
  }

  /**
   * `net.ParseCIDR`: the address before the first '/', then a decimal prefix
   * length of at least one digit and at most the address's bit length. The
   * address is kept as written, not masked to its network.
   */
  function ParseCidr(s: string): (r: Option<Cidr>)
    ensures r.Some? ==> WellFormed(r.value)
  {
    if '/' !in s then None
    else
      var i := IndexOf(s, '/');
      var mask := s[i + 1..];
      match ParseAddr(s[..i])
      case None => None
      case Some(a) =>
        if |mask| == 0 || !AllDigits(mask) || DigitsValue(mask) > BitLen(a) then None
        else Some(Cidr(a, DigitsValue(mask)))
  }

  // ---------------------------------------------------------------- printing

  function FormatV4(x: U32): string
  {
    Join([FormatNat(x / 0x100 / 0x100 / 0x100), FormatNat(x / 0x100 / 0x100 % 0x100),
          FormatNat(x / 0x100 % 0x100), FormatNat(x % 0x100)], '.')
  }

  /** The `k` big-endian 16-bit groups of `y`. */
  function Groups(y: nat, k: nat): (gs: seq<nat>)
    ensures |gs| == k && Groups16(gs)
  {
    if k == 0 then [] else Groups(y / TWO16, k - 1) + [y % TWO16]
  }

  /** The number of zero groups starting at `i`. */
  function ZeroRun(gs: seq<nat>, i: nat): (n: nat)
    requires i <= |gs|
    ensures i + n <= |gs|
    ensures forall k :: i <= k < i + n ==> gs[k] == 0
    decreases |gs| - i
  {
    if i == |gs| || gs[i] != 0 then 0 else 1 + ZeroRun(gs, i + 1)
  }

  /**
   * The first longest run of at least two zero groups at or after `i`, given
   * the best run (`start`, `len`) among the earlier starts; `len` 0 means none.
   */
  function LongestZeroRun(gs: seq<nat>, i: nat, start: nat, len: nat): (r: (nat, nat))
    requires i <= |gs| && start + len <= |gs|
    requires forall k :: start <= k < start + len ==> gs[k] == 0
    ensures r.0 + r.1 <= |gs|
    ensures forall k :: r.0 <= k < r.0 + r.1 ==> gs[k] == 0
    ensures r.1 == 0 || r.1 >= 2 || r == (start, len)
    decreases |gs| - i
  {
    if i == |gs| then (start, len)
    else
      var l := ZeroRun(gs, i);
      if l >= 2 && l > len then LongestZeroRun(gs, i + 1, i, l)
      else LongestZeroRun(gs, i + 1, start, len)
  }

  function HexGroups(gs: seq<nat>): (hs: seq<string>)
    ensures |hs| == |gs|
  {
    if |gs| == 0 then [] else [FormatHex(gs[0])] + HexGroups(gs[1..])
  }

  /** Go's IPv6 text form: lower-case hex groups, the first longest zero run as "::". */
  function FormatV6(y: U128): string
  {
    var gs := Groups(y, 8);
    var (start, len) := LongestZeroRun(gs, 0, 0, 0);
    if len == 0 then Join(HexGroups(gs), ':')
    else Join(HexGroups(gs[..start]), ':') + "::" + Join(HexGroups(gs[start + len..]), ':')
  }

  /** An IPv6 address of the form ::ffff:a.b.c.d (what Go's `To4` accepts). */
  predicate IsMapped(y: int) { y / TWO32 == 0xffff }

  /** `IP.String` of the 16-byte address `net.ParseCIDR` returns. */
  function FormatAddr(a: Addr): string
  {
    match a
    case V4(x) => FormatV4(x)
    case V6(y) => if IsMapped(y) then FormatV4(y % TWO32) else FormatV6(y)
  }

  /** A CIDR in its text form, address then "/" then the decimal prefix length. */
  function FormatCidr(c: Cidr): string
  {
    FormatAddr(c.addr) + "/" + FormatNat(c.prefixLen)
  }

  // ---------------------------------------------------------------- containment

  /** The first `n` bits of a `width`-bit number. */
  function Prefix(x: nat, width: nat, n: nat): int
    requires n <= width
  {
    var p := Pow2(width - n);
    x / p
  }

  /** The 16-byte form Go keeps: IPv4 addresses as ::ffff:a.b.c.d. */
  function Wide(a: Addr): nat
  {
    match a
    case V4(x) => 0xffff * TWO32 + x
    case V6(y) => y
  }

  /**
   * `IPNet.Contains` for the network `net.ParseCIDR` builds from `net`. An
   * IPv4 network holds the addresses whose 4-byte form exists and shares its
   * first `prefixLen` bits; an IPv6 network compares 16-byte forms, and a
   * network whose masked address is IPv4-mapped only holds IPv4 addresses.
   */
  predicate Contains(net: Cidr, ip: Addr)
    requires WellFormed(net)
  {
    var w := Wide(ip);
    var n := net.prefixLen;
    match net.addr
    case V4(x) => IsMapped(w) && Prefix(w % TWO32, 32, n) == Prefix(x, 32, n)
    case V6(y) => IsMapped(Prefix(y, 128, n) * Pow2(128 - n)) == IsMapped(w) && Prefix(w, 128, n) == Prefix(y, 128, n)
  }

  // ---------------------------------------------------------------- IPv4 text round trip

  /** The four printed fields of an IPv4 address recombine to it. */
  lemma V4Fields(x: U32)
    ensures x / 0x100 / 0x100 / 0x100 < 0x100
    ensures x == x / 0x100 / 0x100 / 0x100 * 0x100_0000 + x / 0x100 / 0x100 % 0x100 * 0x1_0000
                 + x / 0x100 % 0x100 * 0x100 + x % 0x100
  {
    var q1 := x / 0x100;
    var q2 := q1 / 0x100;
    var q3 := q2 / 0x100;
    assert x == q1 * 0x100 + x % 0x100;
    assert q1 == q2 * 0x100 + q1 % 0x100;
    assert q2 == q3 * 0x100 + q2 % 0x100;
  }

  lemma Join4(a: string, b: string, c: string, d: string, sep: char)
    ensures Join([a, b, c, d], sep) == a + [sep] + b + [sep] + c + [sep] + d
  {
    assert [c, d][1..] == [d];
    assert Join([c, d], sep) == c + [sep] + d;
    assert [b, c, d][1..] == [c, d];
    assert Join([b, c, d], sep) == b + [sep] + (c + [sep] + d);
    assert [a, b, c, d][1..] == [b, c, d];
    assert Join([a, b, c, d], sep) == a + [sep] + (b + [sep] + (c + [sep] + d));
  }

  predicate DottedChars(s: string) { forall i :: 0 <= i < |s| ==> IsDigit(s[i]) || s[i] == '.' }

  lemma {:induction false} JoinDotted(parts: seq<string>)
    requires forall i :: 0 <= i < |parts| ==> AllDigits(parts[i])
    ensures DottedChars(Join(parts, '.'))
    decreases |parts|
  {
    if |parts| > 1 {
      JoinDotted(parts[1..]);
      var s := Join(parts, '.');
      assert s == parts[0] + ['.'] + Join(parts[1..], '.');
      forall i | 0 <= i < |s| ensures IsDigit(s[i]) || s[i] == '.' {
        if i < |parts[0]| { assert s[i] == parts[0][i]; }
        else if i > |parts[0]| { assert s[i] == Join(parts[1..], '.')[i - |parts[0]| - 1]; }
      }
    }
  }

  /** The printed form: digits and dots only, and it starts with a run of digits ended by a dot. */
  lemma FormatV4Shape(x: U32)
    ensures DottedChars(FormatV4(x))
    ensures exists lead: string, rest: string :: AllDigits(lead) && FormatV4(x) == lead + "." + rest
  {
    var a, b, c, d := FormatNat(x / 0x100 / 0x100 / 0x100), FormatNat(x / 0x100 / 0x100 % 0x100),
                      FormatNat(x / 0x100 % 0x100), FormatNat(x % 0x100);
    Join4(a, b, c, d, '.');
    JoinDotted([a, b, c, d]);
    assert FormatV4(x) == a + "." + (b + "." + c + "." + d);
  }

  lemma {:induction false} FirstMarkAfterDigits(p: string, s: string)
    requires AllDigits(p)
    ensures FirstMark(p + s) == FirstMark(s)
    decreases |p|
  {
    if |p| > 0 {
      assert (p + s)[0] == p[0] && IsDigit(p[0]);
      assert (p + s)[1..] == p[1..] + s;
      FirstMarkAfterDigits(p[1..], s);
      assert FirstMark(p + s) == FirstMark((p + s)[1..]);
    } else {
      assert p + s == s;
    }
  }

  /** A number below 256 printed in decimal parses back as an octet, and holds no dot. */
  lemma ParseOctetFormat(v: nat)
    requires v < 0x100
    ensures ParseOctet(FormatNat(v)) == Some(v)
    ensures '.' !in FormatNat(v)
  {
    var f := FormatNat(v);
    assert forall k :: 0 <= k < |f| ==> f[k] != '.';
  }

  /** A text whose four dot-separated fields parse as octets parses to their 32-bit value. */
  lemma ParseIPv4Fields(s: string, fs: seq<string>, a: nat, b: nat, c: nat, d: nat)
    requires Split(s, '.') == fs && |fs| == 4
    requires ParseOctet(fs[0]) == Some(a) && ParseOctet(fs[1]) == Some(b)
    requires ParseOctet(fs[2]) == Some(c) && ParseOctet(fs[3]) == Some(d)
    ensures ParseIPv4(s) == Some(a * 0x100_0000 + b * 0x1_0000 + c * 0x100 + d)
  {
  }

  /** Four octet fields without dots, joined by dots, parse to their 32-bit value. */
  lemma ParseIPv4Join(fs: seq<string>, a: nat, b: nat, c: nat, d: nat)
    requires |fs| == 4 && forall i :: 0 <= i < 4 ==> '.' !in fs[i]
    requires ParseOctet(fs[0]) == Some(a) && ParseOctet(fs[1]) == Some(b)
    requires ParseOctet(fs[2]) == Some(c) && ParseOctet(fs[3]) == Some(d)
    ensures ParseIPv4(Join(fs, '.')) == Some(a * 0x100_0000 + b * 0x1_0000 + c * 0x100 + d)
  {
    SplitJoin(fs, '.');
    ParseIPv4Fields(Join(fs, '.'), fs, a, b, c, d);
  }

  lemma ParseIPv4FormatV4(x: U32)
    ensures ParseIPv4(FormatV4(x)) == Some(x)
  {
    V4Fields(x);
    var a, b, c, d := x / 0x100 / 0x100 / 0x100, x / 0x100 / 0x100 % 0x100, x / 0x100 % 0x100, x % 0x100;
    ParseOctetFormat(a);
    ParseOctetFormat(b);
    ParseOctetFormat(c);
    ParseOctetFormat(d);
    ParseIPv4Join([FormatNat(a), FormatNat(b), FormatNat(c), FormatNat(d)], a, b, c, d);
  }

  lemma ParseAddrFormatV4(x: U32)
    ensures ParseAddr(FormatV4(x)) == Some(V4(x))
  {
    var s := FormatV4(x);
    FormatV4Shape(x);
    assert forall k :: 0 <= k < |s| ==> s[k] != '%';
    var lead: string, rest: string :| AllDigits(lead) && s == lead + "." + rest;
    assert s == lead + ("." + rest);
    FirstMarkAfterDigits(lead, "." + rest);
    ParseIPv4FormatV4(x);
  }

  /** The first `c` in `v + [c] + t` is the one after `v` when `v` has none. */
  lemma IndexOfAfter(v: string, c: char, t: string)
    requires c !in v
    ensures IndexOf(v + [c] + t, c) == |v|
  {
    var s := v + [c] + t;
    var i := IndexOf(s, c);
    assert s[|v|] == c;
    assert forall k :: 0 <= k < |v| ==> s[k] == v[k] != c;
    assert i >= |v|;
    assert s[..i + 1][|v|] == c;
  }

  /** `FormatCidr` undoes `ParseCidr` on every IPv4 CIDR. */
  lemma ParseCidrFormatV4(x: U32, n: nat)
    requires n <= 32
    ensures ParseCidr(FormatCidr(Cidr(V4(x), n))) == Some(Cidr(V4(x), n))
  {
    var v := FormatV4(x);
    var s := FormatCidr(Cidr(V4(x), n));
    FormatV4Shape(x);
    assert forall k :: 0 <= k < |v| ==> v[k] != '/';
    assert s == v + ['/'] + FormatNat(n);
    IndexOfAfter(v, '/', FormatNat(n));
    assert s[..|v|] == v;
    assert s[|v| + 1..] == FormatNat(n);
    ParseAddrFormatV4(x);
  }

  /** Distinct IPv4 addresses print differently. */
  lemma FormatV4Injective(x: U32, z: U32)
    requires FormatV4(x) == FormatV4(z)
    ensures x == z
  {
    ParseIPv4FormatV4(x);
    ParseIPv4FormatV4(z);
  }
}
