/** The link-layer address printer: `ll_addr_n2a` (ipneigh.c:38-54). */
module LinkAddress {
  import opened Bytes
  import opened Text

  const AF_INET := 2
  const AF_INET6 := 10

  const ARPHRD_TUNNEL := 768
  const ARPHRD_TUNNEL6 := 769
  const ARPHRD_SIT := 776
  const ARPHRD_IPGRE := 778

  function HexParts(addr: bytes): (parts: seq<string>)
    ensures |parts| == |addr|
    ensures forall i :: 0 <= i < |addr| ==> parts[i] == Hex2(addr[i])
  {
    seq(|addr|, i requires 0 <= i < |addr| => Hex2(addr[i]))
  }

  /** Two hex digits a byte, joined by colons. */
  function HexColon(addr: bytes): string {
    Join(HexParts(addr), ':')
  }

  lemma {:induction false} HexColonSnoc(addr: bytes, b: byte)
    requires addr != []
    ensures HexColon(addr + [b]) == HexColon(addr) + ":" + Hex2(b)
  {
    assert HexParts(addr + [b]) == HexParts(addr) + [Hex2(b)];
    JoinSnoc(HexParts(addr), Hex2(b), ':');
  }

  lemma {:induction false} HexColonLength(addr: bytes)
    requires addr != []
    ensures |HexColon(addr)| == 3 * |addr| - 1
  {
    if |addr| > 1 {
      assert HexParts(addr)[1..] == HexParts(addr[1..]);
      HexColonLength(addr[1..]);
    }
  }

  /** The bytes that a hex text stands for. */
  function FromHex(text: string): seq<int> {
    FromParts(SplitOn(text, ':'))
  }

  function FromParts(parts: seq<string>): seq<int> {
    seq(|parts|, i requires 0 <= i < |parts| =>
      if |parts[i]| == 2 then HexValue(parts[i][0]) * 16 + HexValue(parts[i][1]) else -1)
  }

  /** The text reads back to the address. */
  lemma HexColonRoundTrip(addr: bytes)
    requires addr != []
    ensures FromHex(HexColon(addr)) == addr
  {
    HexPartsFree(addr);
    SplitJoin(HexParts(addr), ':');
    hide SplitOn, Join, HexValue, Hex2;
    PartsRoundTrip(addr);
  }

  lemma HexPartsFree(addr: bytes)
    ensures AllFree(HexParts(addr), ':')
  {
    forall i | 0 <= i < |addr| ensures Free(HexParts(addr)[i], ':') {
      assert HexParts(addr)[i] == Hex2(addr[i]);
    }
  }

  lemma PartsRoundTrip(addr: bytes)
    ensures FromParts(HexParts(addr)) == addr
  {
    hide Hex2;
  }

  /** The text of the first `i` bytes, over `s`, in a buffer of `blen` characters. */
  function Formatted(s: string, addr: bytes, i: nat, blen: nat): string
    requires i <= |addr| && blen <= |s|
  {
    Splice(s, 0, Bounded(HexColon(addr[..i]), blen))
  }

  /** The formatting loop: two digits, then three characters a byte until the
      buffer is full. */
  method FormatHex(addr: bytes, buf: array<char>, blen: nat)
    requires addr != [] && blen <= buf.Length
    modifies buf
    ensures buf[..] == Splice(old(buf[..]), 0, Bounded(HexColon(addr), blen))
  {
    ghost var s := buf[..];
    hide *;
    FormatStart(s, addr, blen);
    var n := Snprintf(buf, 0, blen, Hex2(addr[0]));
    FormatRest(addr, buf, blen, s);
  }

  method FormatRest(addr: bytes, buf: array<char>, blen: nat, ghost s: string)
    requires addr != [] && blen <= buf.Length == |s| && buf[..] == Formatted(s, addr, 1, blen)
    modifies buf
    ensures buf[..] == Splice(s, 0, Bounded(HexColon(addr), blen))
  {
    hide *;
    var i, l := 1, 2;
    while i < |addr| && l < blen
      invariant 1 <= i <= |addr| && l == 3 * i - 1
      invariant buf[..] == Formatted(s, addr, i, blen)
    {
      FormatOne(addr, i, l, buf, blen, s);
      i, l := i + 1, l + 3;
    }
    FormatEnd(s, addr, i, blen);
  }

  method FormatOne(addr: bytes, i: nat, l: nat, buf: array<char>, blen: nat, ghost s: string)
    requires 1 <= i < |addr| && l == 3 * i - 1 && l < blen <= buf.Length == |s|
    requires buf[..] == Formatted(s, addr, i, blen)
    modifies buf
    ensures buf[..] == Formatted(s, addr, i + 1, blen)
  {
    hide *;
    FormatStep(s, addr, i, l, blen);
    var n := Snprintf(buf, l, blen - l, ":" + Hex2(addr[i]));
  }

  lemma FormatStart(s: string, addr: bytes, blen: nat)
    requires addr != [] && blen <= |s|
    ensures Formatted(s, addr, 1, blen) == Splice(s, 0, Bounded(Hex2(addr[0]), blen))
  {
    assert addr[..1] == [addr[0]];
  }

  lemma FormatStep(s: string, addr: bytes, i: nat, l: nat, blen: nat)
    requires 1 <= i < |addr| && l == 3 * i - 1 && l < blen <= |s|
    ensures Splice(Formatted(s, addr, i, blen), l, Bounded(":" + Hex2(addr[i]), blen - l)) ==
              Formatted(s, addr, i + 1, blen)
  {
    HexColonLength(addr[..i]);
    HexColonSnoc(addr[..i], addr[i]);
    assert addr[..i + 1] == addr[..i] + [addr[i]];
    hide HexColon;
    BoundedAppend(s, HexColon(addr[..i]), ":" + Hex2(addr[i]), blen);
    hide Bounded, Splice, Hex2;
    assert HexColon(addr[..i]) + (":" + Hex2(addr[i])) == HexColon(addr[..i]) + ":" + Hex2(addr[i]);
  }

  lemma FormatEnd(s: string, addr: bytes, i: nat, blen: nat)
    requires 1 <= i <= |addr| && blen <= |s| && (i == |addr| || 3 * i - 1 >= blen)
    ensures Formatted(s, addr, i, blen) == Splice(s, 0, Bounded(HexColon(addr), blen))
  {
    if i == |addr| {
      assert addr[..i] == addr;
    } else {
      HexColonLength(addr[..i]);
      TruncatedAlready(addr, i, blen);
    }
  }

  /** Once the buffer is full, the bytes that follow make no difference. */
  lemma {:induction false} TruncatedAlready(addr: bytes, i: nat, blen: nat)
    requires 1 <= i <= |addr| && |HexColon(addr[..i])| >= blen
    ensures Bounded(HexColon(addr), blen) == Bounded(HexColon(addr[..i]), blen)
    decreases |addr| - i
  {
    if i == |addr| {
      assert addr[..i] == addr;
    } else {
      HexColonSnoc(addr[..i], addr[i]);
      assert addr[..i + 1] == addr[..i] + [addr[i]];
      TruncatedAlready(addr, i + 1, blen);
    }
  }

  /** What the loop leaves decodes to the address exactly when the buffer has three characters a byte. */
  lemma PrintedDecodesIff(addr: bytes, blen: nat)
    requires addr != [] && blen >= 1
    ensures CStr(Bounded(HexColon(addr), blen)) == HexColon(addr)[..Min(|HexColon(addr)|, blen - 1)]
    ensures FromHex(CStr(Bounded(HexColon(addr), blen))) == addr <==> blen >= 3 * |addr|
  {
    HexColonLength(addr);
    HexColonFree(addr);
    CStrBounded(HexColon(addr), blen);
    var text := HexColon(addr)[..Min(|HexColon(addr)|, blen - 1)];
    hide *;
    if blen >= 3 * |addr| {
      assert text == HexColon(addr);
      HexColonRoundTrip(addr);
    } else if FromHex(text) == addr {
      DecodedLength(text, addr);
    }
  }

  lemma {:induction false} HexColonFree(addr: bytes)
    ensures Free(HexColon(addr), NUL)
  {
    hide Hex2, HexColon;
    if addr != [] {
      HexColonCons(addr);
      HexColonFree(addr[1..]);
      HexFree(addr[0]);
    } else {
      assert HexColon([]) == "" by { NoHex(); }
    }
  }

  lemma NoHex()
    ensures HexColon([]) == ""
  {
  }

  lemma HexColonCons(addr: bytes)
    requires addr != []
    ensures HexColon(addr) == Hex2(addr[0]) + (if |addr| > 1 then [':'] else "") + HexColon(addr[1..])
  {
    hide Hex2, Join;
    assert HexParts(addr) == [Hex2(addr[0])] + HexParts(addr[1..]);
    JoinCons(Hex2(addr[0]), HexParts(addr[1..]), ':');
  }

  lemma HexFree(b: byte)
    ensures Free(Hex2(b), NUL)
  {
  }

  /** A text that decodes to an address has two digits a byte, and the colons. */
  lemma DecodedLength(text: string, addr: bytes)
    requires FromHex(text) == addr && addr != []
    ensures |text| == 3 * |addr| - 1
  {
    JoinSplit(text, ':');
    var parts := SplitOn(text, ':');
    forall i | 0 <= i < |parts| ensures |parts[i]| == 2 {
      assert FromParts(parts)[i] == addr[i];
    }
    hide SplitOn;
    JoinPairs(parts, ':');
  }

  lemma {:induction false} JoinPairs(parts: seq<string>, sep: char)
    requires parts != [] && forall i :: 0 <= i < |parts| ==> |parts[i]| == 2
    ensures |Join(parts, sep)| == 3 * |parts| - 1
  {
    if |parts| > 1 { JoinPairs(parts[1..], sep); }
  }

  /** Tunnel end points are printed as IP addresses. */
  predicate IsTunnel(alen: nat, kind: int) {
    || (alen == 4 && kind in {ARPHRD_TUNNEL, ARPHRD_SIT, ARPHRD_IPGRE})
    || (alen == 16 && kind == ARPHRD_TUNNEL6)
  }

  function LinkText(ntop: (nat, bytes) -> string, addr: bytes, kind: int): string {
    if IsTunnel(|addr|, kind) then ntop(if |addr| == 4 then AF_INET else AF_INET6, addr) else HexColon(addr)
  }

  /** `ll_addr_n2a`; `ntop` is `inet_ntop`, which fails on a buffer too small. */
  method LlAddrN2a(ntop: (nat, bytes) -> string, addr: bytes, kind: int, buf: array<char>, blen: nat)
    returns (ok: bool)
    requires addr != [] && blen <= buf.Length
    modifies buf
    ensures ok <==> (IsTunnel(|addr|, kind) ==> |LinkText(ntop, addr, kind)| < blen)
    ensures buf[..] == if ok then Splice(old(buf[..]), 0, Bounded(LinkText(ntop, addr, kind), blen)) else old(buf[..])
  {
    if |addr| == 4 && (kind == ARPHRD_TUNNEL || kind == ARPHRD_SIT || kind == ARPHRD_IPGRE) {
      ok := InetNtop(ntop, AF_INET, addr, buf, blen);
    } else if |addr| == 16 && kind == ARPHRD_TUNNEL6 {
      ok := InetNtop(ntop, AF_INET6, addr, buf, blen);
    } else {
      FormatHex(addr, buf, blen);
      ok := true;
    }
  }

  method InetNtop(ntop: (nat, bytes) -> string, af: nat, addr: bytes, buf: array<char>, blen: nat)
    returns (ok: bool)
    requires blen <= buf.Length
    modifies buf
    ensures ok <==> |ntop(af, addr)| < blen
    ensures buf[..] == if ok then Splice(old(buf[..]), 0, Bounded(ntop(af, addr), blen)) else old(buf[..])
  {
    ok := |ntop(af, addr)| < blen;
    if ok {
      Store(buf, 0, Bounded(ntop(af, addr), blen));
    }
  }
}
