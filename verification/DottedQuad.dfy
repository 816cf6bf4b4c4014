/**
 Dotted quads: an address as text and as a number, and a netmask as a prefix length
 (Wireless.swift:107-124 and 192-210, LanDeviceScanner.swift:29 and 79-85).
 */
module DottedQuad {
  import opened Bytes
  import opened BitOps
  import opened Common
  import opened Text
  import opened DnsName
  import ScanRange

  function Quad(addr: octets): string {
    Join([Dec(addr[0]), Dec(addr[1]), Dec(addr[2]), Dec(addr[3])], DOT)
  }

  predicate AllDigits(s: string) {
    s != [] && forall c :: c in s ==> '0' <= c <= '9'
  }

  /** `Int(_: String)`: digits, after a sign or not, that fit 64 bits. */
  function ParseInt(s: string): Option<int> {
    var negative := s != [] && s[0] == '-';
    var digits := if s != [] && (s[0] == '-' || s[0] == '+') then s[1..] else s;
    if !AllDigits(digits) then None
    else
      var v := if negative then -DecValue(digits) else DecValue(digits);
      if -0x8000_0000_0000_0000 <= v < 0x8000_0000_0000_0000 then Some(v) else None
  }

  function ParseInts(parts: seq<string>): seq<int> {
    if parts == [] then []
    else (match ParseInt(parts[0]) case Some(v) => [v] case None => []) + ParseInts(parts[1..])
  }

  lemma ParseDec(n: nat)
    requires n < 256
    ensures ParseInt(Dec(n)) == Some(n)
  {
    DecRoundTrip(n);
    assert Dec(n)[0] in Dec(n);
  }

  /** A list of non-empty parts without dots survives joining and Swift's splitting. */
  lemma SwiftSplitOfJoin(parts: seq<string>)
    requires parts != [] && "" !in parts && AllFree(parts, DOT)
    ensures SwiftSplit(Join(parts, DOT)) == parts
  {
    SplitJoin(parts, DOT);
    NoneEmpty(parts);
  }

  lemma NoneEmpty(parts: seq<string>)
    requires "" !in parts
    ensures NonEmpty(parts) == parts
  {
    if parts != [] {
      assert parts == [parts[0]] + parts[1..];
      NoneEmpty(parts[1..]);
    }
  }

  lemma QuadParts(addr: octets)
    ensures SwiftSplit(Quad(addr)) == [Dec(addr[0]), Dec(addr[1]), Dec(addr[2]), Dec(addr[3])]
  {
    var parts := [Dec(addr[0]), Dec(addr[1]), Dec(addr[2]), Dec(addr[3])];
    DecFree(addr[0], DOT); DecFree(addr[1], DOT); DecFree(addr[2], DOT); DecFree(addr[3], DOT);
    hide Dec, Join, SwiftSplit, Free;
    SwiftSplitOfJoin(parts);
  }

  lemma ParseFour(p: string, q: string, r: string, s: string, a: int, b: int, c: int, d: int)
    requires ParseInt(p) == Some(a) && ParseInt(q) == Some(b) && ParseInt(r) == Some(c) && ParseInt(s) == Some(d)
    ensures ParseInts([p, q, r, s]) == [a, b, c, d]
  {
    hide ParseInt;
    assert ParseInts([s]) == [d];
    assert [r, s][1..] == [s] && ParseInts([r, s]) == [c, d];
    assert [q, r, s][1..] == [r, s] && ParseInts([q, r, s]) == [b, c, d];
    assert [p, q, r, s][1..] == [q, r, s];
  }

  // ---- Addresses as numbers -------------------------------------------------------

  /** The text of the Wi-Fi address, as a number; None unless it has four numbers. */
  function IpAddressInt(text: string): Option<int> {
    var parts := ParseInts(SwiftSplit(text));
    if |parts| != 4 then None
    else Some(parts[0] * 0x100_0000 + parts[1] * 0x1_0000 + parts[2] * 0x100 + parts[3])
  }

  function LowByte(x: nat): (b: byte)
    ensures b == x % 256
  {
    PowersOfTwo();
    AndLowMask(x, 8);
    And(x, 0xFF)
  }

  /** `getIPAddress`. */
  function IpText(index: nat): string {
    Dec(LowByte(index / 0x100_0000)) + "." + Dec(LowByte(index / 0x1_0000)) + "." + Dec(LowByte(index / 0x100)) + "."
    + Dec(LowByte(index))
  }

  lemma QuadText(addr: octets)
    ensures Quad(addr) == Dec(addr[0]) + "." + Dec(addr[1]) + "." + Dec(addr[2]) + "." + Dec(addr[3])
  {
    var a, b, c, d := Dec(addr[0]), Dec(addr[1]), Dec(addr[2]), Dec(addr[3]);
    hide Dec;
    JoinSnoc([a], b, DOT);
    JoinSnoc([a, b], c, DOT);
    JoinSnoc([a, b, c], d, DOT);
    assert Join([a], DOT) == a;
    hide Join;
    assert [a] + [b] == [a, b] && [a, b] + [c] == [a, b, c] && [a, b, c] + [d] == [a, b, c, d];
  }

  /** The text of four octets, read as a number and printed again, is the same text, and a
      number printed and read again is the same number. */
  lemma AddressRoundTrip(addr: octets, v: nat)
    requires v < TWO_TO_THE_32
    ensures IpAddressInt(Quad(addr)) == Some(NetLong(addr)) && IpText(NetLong(addr)) == Quad(addr)
    ensures IpAddressInt(IpText(v)) == Some(v)
  {
    ReadQuad(addr);
    PrintQuad(NetLong(addr));
    OctetsOfNetLong(addr);
    NetLongOfOctets(v);
    ReadQuad(Octets(v));
    PrintQuad(v);
    hide *;
  }

  lemma ReadQuad(addr: octets)
    ensures IpAddressInt(Quad(addr)) == Some(NetLong(addr))
  {
    QuadParts(addr);
    var a, b, c, d := addr[0] as int, addr[1] as int, addr[2] as int, addr[3] as int;
    ParseDec(a); ParseDec(b); ParseDec(c); ParseDec(d);
    hide ParseInt, Dec, SwiftSplit, Quad;
    ParseFour(Dec(a), Dec(b), Dec(c), Dec(d), a, b, c, d);
  }

  lemma PrintQuad(v: nat)
    requires v < TWO_TO_THE_32
    ensures IpText(v) == Quad(Octets(v))
  {
    hide Dec, Quad, LowByte;
    QuadText(Octets(v));
    TopByte(v);
    assert Octets(v) == [LowByte(v / 0x100_0000), LowByte(v / 0x1_0000), LowByte(v / 0x100), LowByte(v)];
    hide Octets;
  }

  lemma TopByte(v: nat)
    requires v < TWO_TO_THE_32
    ensures v / 0x100_0000 == v / 0x100_0000 % 256
  {
  }

  // ---- Netmasks --------------------------------------------------------------------

  function Ones(n: nat): nat {
    if n == 0 then 0 else n % 2 + Ones(n / 2)
  }

  /** `String(byte, radix: 2)`. */
  function Binary(n: nat): string {
    if n < 2 then [Digit(n)] else Binary(n / 2) + [Digit(n % 2)]
  }

  /** `filter { $0 == "1" }.count`. */
  function CountOnes(s: string): nat {
    if s == "" then 0 else CountOnes(s[..|s| - 1]) + if s[|s| - 1] == '1' then 1 else 0
  }

  lemma {:induction false} BinaryOnes(n: nat)
    ensures CountOnes(Binary(n)) == Ones(n)
  {
    if n < 2 {
      assert [Digit(n)][..0] == "" && Ones(n) == n % 2 + Ones(0);
    } else {
      BinaryOnes(n / 2);
      assert Binary(n)[..|Binary(n)| - 1] == Binary(n / 2);
    }
  }

  /** `UInt8(_: Substring)`. */
  function ParseByte(s: string): Option<byte> {
    match ParseInt(s) case None => None case Some(v) => if 0 <= v < 256 then (var b: byte := v; Some(b)) else None
  }

  /** The ones of all components; None when one of them is not a byte. */
  function OnesOfAll(components: seq<string>): Option<nat> {
    if components == [] then Some(0)
    else
      match (ParseByte(components[0]), OnesOfAll(components[1..]))
      case (Some(b), Some(n)) => Some(Ones(b) + n)
      case _ => None
  }

  function Plus(n: nat, m: Option<nat>): Option<nat> {
    match m case Some(v) => Some(n + v) case None => None
  }

  function Cidr(netmask: string): Option<nat> {
    var components := SwiftSplit(netmask);
    if |components| != 4 then None else OnesOfAll(components)
  }

  lemma OnesFrom(components: seq<string>, i: nat, cidr: nat)
    requires i < |components|
    ensures Plus(cidr, OnesOfAll(components[i..])) ==
            match ParseByte(components[i])
            case None => None
            case Some(b) => Plus(cidr + Ones(b), OnesOfAll(components[i + 1..]))
  {
    hide ParseByte, Ones;
    assert components[i..][0] == components[i] && components[i..][1..] == components[i + 1..];
  }

  lemma NoComponents(components: seq<string>, cidr: nat)
    ensures Plus(cidr, OnesOfAll(components[|components|..])) == Some(cidr)
  {
  }

  method CalculateCIDR(netmask: string) returns (r: Option<nat>)
    ensures r == Cidr(netmask)
  {
    var components := SwiftSplit(netmask);
    if |components| != 4 {
      return None;
    }
    hide ParseByte, SwiftSplit, Ones, Binary, CountOnes, OnesOfAll;
    var cidr: nat, i: nat := 0, 0;
    assert components[0..] == components;
    while i < |components|
      invariant 0 <= i <= |components|
      invariant Plus(cidr, OnesOfAll(components[i..])) == OnesOfAll(components)
    {
      OnesFrom(components, i, cidr);
      match ParseByte(components[i]) {
        case None => return None;
        case Some(b) =>
          BinaryOnes(b);
          cidr := cidr + CountOnes(Binary(b));
      }
      i := i + 1;
    }
    NoComponents(components, cidr);
    return Some(cidr);
  }

  lemma {:induction false} OnesAppend(a: nat, b: nat, k: nat)
    requires b < Pow2(k)
    ensures Ones(a * Pow2(k) + b) == Ones(a) + Ones(b)
  {
    if k == 0 {
      assert Ones(b) == 0;
      assert a * Pow2(k) == a;
    } else {
      var p := Pow2(k - 1);
      assert Pow2(k) == 2 * p;
      hide Ones, Pow2;
      OnesAppend(a, b / 2, k - 1);
      Doubled(a, p);
      OnesShift(a * p, b);
    }
  }

  lemma Doubled(a: nat, p: nat)
    ensures a * (2 * p) == 2 * (a * p) && a * p >= 0
  {
  }

  lemma OnesShift(q: nat, b: nat)
    ensures Ones(2 * q + b) == b % 2 + Ones(q + b / 2)
    ensures Ones(b) == b % 2 + Ones(b / 2)
  {
    HalfSum(q, b);
    OnesStep(2 * q + b);
    OnesStep(b);
    hide Ones;
  }

  lemma OnesStep(n: nat)
    ensures Ones(n) == n % 2 + Ones(n / 2)
  {
  }

  lemma HalfSum(q: nat, b: nat)
    ensures (2 * q + b) / 2 == q + b / 2 && (2 * q + b) % 2 == b % 2
  {
  }

  lemma {:induction false} OnesBelow(p: nat)
    ensures Pow2(p) >= 1 && Ones(Pow2(p) - 1) == p
  {
    if p > 0 {
      OnesBelow(p - 1);
      OnesStep(Pow2(p) - 1);
      HalfSum(Pow2(p - 1) - 1, 1);
    }
  }

  /** The contiguous mask of prefix length `p`. */
  function Mask(p: nat): int
    requires p <= 32
  {
    TWO_TO_THE_32 - Pow2(32 - p)
  }

  lemma OnesOfMask(p: nat)
    requires p <= 32
    ensures 0 <= Mask(p) && Ones(Mask(p)) == p
  {
    hide Pow2, Ones;
    var h := 32 - p;
    PowersOfTwo();
    PowAdd(p, h);
    OnesBelow(p);
    OnesBelow(h);
    OnesOfMultiple(Pow2(p) - 1, h);
    LessOne(Pow2(p), Pow2(h));
  }

  lemma OnesOfMultiple(a: nat, k: nat)
    requires Pow2(k) >= 1
    ensures Ones(a * Pow2(k)) == Ones(a)
  {
    OnesAppend(a, 0, k);
    assert Ones(0) == 0;
    hide Pow2;
  }

  lemma LessOne(x: nat, y: nat)
    requires x >= 1
    ensures (x - 1) * y == x * y - y && (x - 1) * y >= 0
  {
  }

  lemma OnesOfByte(a: nat, b: nat)
    requires b < 256
    ensures Ones(a * 256 + b) == Ones(a) + Ones(b)
  {
    PowersOfTwo();
    hide Pow2, Ones;
    OnesAppend(a, b, 8);
  }

  lemma OnesOfValue(addr: octets)
    ensures Ones(NetLong(addr)) == Ones(addr[0]) + Ones(addr[1]) + Ones(addr[2]) + Ones(addr[3])
  {
    hide Ones;
    var a, b, c, d := addr[0] as int, addr[1] as int, addr[2] as int, addr[3] as int;
    OnesOfByte(a, b);
    OnesOfByte(a * 256 + b, c);
    OnesOfByte((a * 256 + b) * 256 + c, d);
  }

  lemma OnesOfFour(p: string, q: string, r: string, s: string, a: byte, b: byte, c: byte, d: byte)
    requires ParseByte(p) == Some(a) && ParseByte(q) == Some(b) && ParseByte(r) == Some(c) && ParseByte(s) == Some(d)
    ensures OnesOfAll([p, q, r, s]) == Some(Ones(a) + Ones(b) + Ones(c) + Ones(d))
  {
    hide ParseByte, Ones;
    assert OnesOfAll([s]) == Some(Ones(d));
    assert [r, s][1..] == [s] && OnesOfAll([r, s]) == Some(Ones(c) + Ones(d));
    assert [q, r, s][1..] == [r, s] && OnesOfAll([q, r, s]) == Some(Ones(b) + (Ones(c) + Ones(d)));
    assert [p, q, r, s][1..] == [q, r, s];
  }

  lemma ParseDecByte(b: byte)
    ensures ParseByte(Dec(b)) == Some(b)
  {
    ParseDec(b);
    hide ParseInt, Dec;
  }

  lemma CidrOfQuad(addr: octets)
    ensures Cidr(Quad(addr)) == Some(Ones(NetLong(addr)))
  {
    hide ParseByte, Dec, SwiftSplit, Quad, Ones, NetLong, OnesOfAll;
    QuadParts(addr);
    OnesOfValue(addr);
    var a, b, c, d := addr[0], addr[1], addr[2], addr[3];
    ParseDecByte(a); ParseDecByte(b); ParseDecByte(c); ParseDecByte(d);
    OnesOfFour(Dec(a), Dec(b), Dec(c), Dec(d), a, b, c, d);
  }

  /** The prefix length computed from a netmask's text, through the scanner's shift, gives the
      netmask back exactly when it is contiguous. */
  lemma MaskRoundTripIff(mask: nat)
    requires mask < TWO_TO_THE_32
    ensures var cidr := Cidr(IpText(mask));
            && cidr == Some(Ones(mask)) && Ones(mask) <= 32
            && (ScanRange.NetmaskSw(Ones(mask)) == mask <==> Contiguous(mask))
  {
    PowersOfTwo();
    hide IpText, Cidr, Ones, Octets, NetLong, Pow2, Quad, ScanRange.NetmaskSw, Mask;
    PrintQuad(mask);
    CidrOfQuad(Octets(mask));
    NetLongOfOctets(mask);
    OnesAtMost(mask, 32);
    MaskOfSwift(Ones(mask));
    if p :| 0 <= p <= 32 && mask == Mask(p) {
      OnesOfMask(p);
    }
  }

  lemma MaskOfSwift(p: nat)
    requires p <= 32
    ensures ScanRange.NetmaskSw(p) == Mask(p)
  {
    ScanRange.NetmaskSwValue(p);
    hide Pow2, ScanRange.NetmaskSw;
  }

  ghost predicate Contiguous(mask: nat) {
    exists p :: 0 <= p <= 32 && mask == Mask(p)
  }

  lemma {:induction false} OnesAtMost(n: nat, k: nat)
    requires n < Pow2(k)
    ensures Ones(n) <= k
  {
    if n > 0 { OnesAtMost(n / 2, k - 1); }
  }
}
