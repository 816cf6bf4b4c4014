/**
 What `print_neigh` says about an entry and which entries it takes, read from the bytes of
 the message: `struct ndmsg` after the 16-byte header, with the numbers that the kernel's
 headers give to types, flags and attributes (ipneigh.c:178-308).
 */
module EntryFormat {
  import opened Bytes
  import opened BitOps
  import opened Netlink
  import opened Common
  import opened Text
  import opened PrefixMatch
  import opened LinkAddress
  import opened Neighbour
  import opened StateNames

  // ---- The text of an entry -----------------------------------------------------

  function IndexOfEntry(m: entry): nat {
    m[20] as int + 0x100 * m[21] as int + 0x1_0000 * m[22] as int + 0x100_0000 * m[23] as int
  }

  function StateOfEntry(m: entry): nat {
    m[24] as int + 0x100 * m[25] as int
  }

  /** IPv4 (2) and IPv6 (10) go to `inet_ntop`; a packet address (17) is hex, cut to 255 characters. */
  function IpText(env: Env, family: nat, addr: bytes): string {
    if family == 2 || family == 10 then env.ntop(family, addr)
    else if family == 17 then HexColon(addr)[..Min(|HexColon(addr)|, 255)]
    else "???"
  }

  /** The end points of tunnels go to `inet_ntop`, in a buffer of 64 characters; all else is hex. */
  function LinkAddressText(env: Env, kind: int, addr: bytes): string {
    if |addr| == 4 && (kind == 768 || kind == 776 || kind == 778) then Fitting(env.ntop(2, addr))
    else if |addr| == 16 && kind == 769 then Fitting(env.ntop(10, addr))
    else HexColon(addr)[..Min(|HexColon(addr)|, 63)]
  }

  function Fitting(text: string): string {
    if |text| >= 64 then "(null)" else text[..IndexOf(text, NUL, 0)]
  }

  function When(c: bool, word: string): seq<string> {
    if c then [word] else []
  }

  function StateWords(state: nat): seq<string> {
    When(state % 2 == 1, "INCOMPLETE") + (When(state / 2 % 2 == 1, "REACHABLE") +
    (When(state / 4 % 2 == 1, "STALE") + (When(state / 8 % 2 == 1, "DELAY") +
    (When(state / 16 % 2 == 1, "PROBE") + (When(state / 32 % 2 == 1, "FAILED") +
    (When(state / 64 % 2 == 1, "NOARP") + When(state / 128 % 2 == 1, "PERMANENT")))))))
  }

  /** The state as text: its words joined by commas, and one more comma when a flag without a
      name is set. */
  function StateSaid(state: nat): string {
    if state == 0 then "" else " " + (Join(StateWords(state), ',') + TrailingComma(state, StateWords(state)))
  }

  function TypeSaid(m: entry): string {
    if m[4] == 29 && m[5] == 0 then "Deleted " else if m[4] == 30 && m[5] == 0 then "miss " else ""
  }

  function DstSaid(env: Env, m: entry): string {
    match Field(m, 1)
    case None => ""
    case Some(addr) => IpText(env, m[16], addr) + " "
  }

  function DevSaid(env: Env, f: Filter, m: entry): string {
    if f.index == 0 && IndexOfEntry(m) != 0 then "dev " + env.ifName(IndexOfEntry(m)) + " " else ""
  }

  function LinkSaid(env: Env, m: entry): string {
    match Field(m, 2)
    case None => ""
    case Some(addr) => "lladdr " + LinkAddressText(env, env.ifKind(IndexOfEntry(m)), addr)
  }

  /** Type, destination (attribute 1), interface, link address (attribute 2), the flags 0x80 and
      0x08, and the state. */
  function Said(env: Env, f: Filter, m: entry): string {
    TypeSaid(m) + DstSaid(env, m) + DevSaid(env, f, m) + LinkSaid(env, m) +
    (if m[26] >= 0x80 then " router" else "") + (if m[26] / 8 % 2 == 1 then " proxy" else "") +
    StateSaid(StateOfEntry(m))
  }

  lemma {:induction false} BitIs(n: nat, k: nat)
    ensures Bit(n, k) <==> n / Pow2(k) % 2 == 1
  {
    if k > 0 {
      BitIs(n / 2, k - 1);
      assert n / (2 * Pow2(k - 1)) == n / 2 / Pow2(k - 1) by { NestedDiv(n, Pow2(k - 1)); }
    }
  }

  lemma NestedDiv(n: nat, p: nat)
    requires p > 0
    ensures n / (2 * p) == n / 2 / p
  {
    var q := n / 2 / p;
    var r := n / 2 - q * p;
    assert 0 <= r < p;
    ModUnique(n, 2 * p, q, 2 * r + n % 2);
  }

  lemma Pow2Small()
    ensures Pow2(0) == 1 && Pow2(1) == 2 && Pow2(2) == 4 && Pow2(3) == 8
    ensures Pow2(4) == 16 && Pow2(5) == 32 && Pow2(6) == 64 && Pow2(7) == 128
  {
  }

  lemma NameWords(state: nat)
    ensures Names(state, 0) == StateWords(state)
  {
    Pow2Small();
    forall k | 0 <= k < 8 ensures Bit(state, k) <==> state / Pow2(k) % 2 == 1 { BitIs(state, k); }
    NamesUnrolled(state);
    hide Bit, Names, Pow2;
  }

  lemma NamesUnrolled(state: nat)
    ensures Names(state, 0) ==
            When(Bit(state, 0), FlagName(0)) + (When(Bit(state, 1), FlagName(1)) +
            (When(Bit(state, 2), FlagName(2)) + (When(Bit(state, 3), FlagName(3)) +
            (When(Bit(state, 4), FlagName(4)) + (When(Bit(state, 5), FlagName(5)) +
            (When(Bit(state, 6), FlagName(6)) + When(Bit(state, 7), FlagName(7))))))))
  {
    hide *;
    NamesFrom(state, 0);
    NamesFrom(state, 1);
    NamesFrom(state, 2);
    NamesFrom(state, 3);
    NamesFrom(state, 4);
    NamesFrom(state, 5);
    NamesFrom(state, 6);
    LastName(state);
  }

  lemma NamesFrom(state: nat, k: nat)
    requires k < 8
    ensures Names(state, k) == When(Bit(state, k), FlagName(k)) + Names(state, k + 1)
  {
    hide Bit, FlagName;
  }

  lemma LastName(state: nat)
    ensures Names(state, 7) == When(Bit(state, 7), FlagName(7))
  {
    hide Bit, FlagName;
    assert Names(state, 8) == [];
  }

  lemma FlagBits(flags: byte)
    ensures And(flags, NTF_ROUTER) != 0 <==> flags >= 0x80
    ensures And(flags, NTF_PROXY) != 0 <==> flags / 8 % 2 == 1
  {
    Pow2Small();
    AndPow2(flags, 7);
    AndPow2(flags, 3);
    BitIs(flags, 7);
    BitIs(flags, 3);
    hide And, Bit, Pow2;
  }

  lemma HexCut(addr: bytes, size: nat)
    requires size > 0
    ensures CStr(Bounded(HexColon(addr), size)) == HexColon(addr)[..Min(|HexColon(addr)|, size - 1)]
  {
    HexColonFree(addr);
    CStrBounded(HexColon(addr), size);
  }

  lemma CStrFits(text: string, size: nat)
    requires |text| < size
    ensures CStr(Bounded(text, size)) == text[..IndexOf(text, NUL, 0)]
  {
    assert text[..|text|] == text;
    IndexOfTerminated(text, 0);
  }

  lemma {:induction false} IndexOfTerminated(text: string, from: nat)
    requires from <= |text|
    ensures IndexOf(text + [NUL], NUL, from) == IndexOf(text, NUL, from)
    decreases |text| - from
  {
    if from < |text| && text[from] != NUL { IndexOfTerminated(text, from + 1); }
  }

  lemma HostSaid(env: Env, family: nat, addr: bytes)
    ensures HostText(env, family, addr) == IpText(env, family, addr)
  {
    HexCut(addr, HOST_BSIZE);
    hide HexColon, CStr, Bounded;
  }

  lemma LinkFieldSaid(env: Env, m: entry, addr: bytes)
    ensures LinkField(env, m, addr) == LinkAddressText(env, env.ifKind(IfIndex(m)), addr)
  {
    hide HexColon, CStr, Bounded, IfIndex;
    HexCut(addr, SPRINT_BSIZE);
    var text := LinkText(env.ntop, addr, env.ifKind(IfIndex(m)));
    if |text| < SPRINT_BSIZE { CStrFits(text, SPRINT_BSIZE); }
    assert text[..Min(|text|, 63)] == if |text| < SPRINT_BSIZE then text else text[..63];
  }

  /** Every line says what the bytes of its entry say. */
  lemma LineSays(env: Env, f: Filter, m: entry)
    ensures Line(env, f, m) == Said(env, f, m)
  {
    assert IfIndex(m) == IndexOfEntry(m) && State(m) == StateOfEntry(m);
    assert TypeText(m) == TypeSaid(m);
    hide IfIndex, State, IndexOfEntry, StateOfEntry, Field, TypeText, TypeSaid;
    if Field(m, 1).Some? { HostSaid(env, m[16], Field(m, 1).value); }
    if Field(m, 2).Some? { LinkFieldSaid(env, m, Field(m, 2).value); }
    hide HostText, IpText, LinkField, LinkAddressText;
    FlagBits(m[26]);
    hide And;
    FlagsSaid(State(m));
    hide StateText, StateSaid;
  }

  lemma FlagsSaid(state: nat)
    requires state < 0x1_0000
    ensures StateText(state) == StateSaid(state)
  {
    hide FlagText, Join, Names, StateWords, TrailingComma;
    NameWords(state);
    FlagTextIsJoin(state, 0);
  }

  // ---- Which entries are taken --------------------------------------------------

  function TypeOf(m: message): nat {
    m[4] as int + 0x100 * m[5] as int
  }

  /** New, deleted or missed. */
  predicate AboutNeighbour(m: message) {
    TypeOf(m) == 28 || TypeOf(m) == 29 || TypeOf(m) == 30
  }

  ghost predicate StatesMeet(mask: nat, state: nat) {
    exists k :: Bit(mask, k) && Bit(state, k)
  }

  /** Only new entries when flushing; the family and the interface asked for; a state of the
      mask, or a proxy (flag 0x08), or no state when bit 8 of the mask asks for that, or DECnet (12). */
  ghost predicate HeaderWanted(f: Filter, flushing: bool, m: entry) {
    && (flushing ==> TypeOf(m) == 28)
    && (f.family == 0 || f.family == m[16])
    && (f.index == 0 || f.index == IndexOfEntry(m))
    && (|| StatesMeet(f.state, StateOfEntry(m))
        || m[26] / 8 % 2 == 1
        || (StateOfEntry(m) == 0 && Bit(f.state, 8))
        || m[16] == 12)
  }

  /** With a prefix asked for, the first bits of a destination (attribute 1) are those of it; with
      unused entries asked for, the count in a cache record (attribute 3) is zero. */
  ghost predicate AttrsWanted(f: Filter, m: entry) {
    var dst, info := Field(m, 1), Field(m, 3);
    && (f.prefixFamily == 0 || dst.None? || SharesPrefix(dst.value, f.prefix, f.prefixBits))
    && (!f.unusedOnly || info.None? || ZeroCount(info.value))
  }

  ghost predicate SharesPrefix(addr: bytes, prefix: address, bits: nat) {
    |addr| <= 256 && bits <= 2048 && SameBits(addr + seq(256 - |addr|, _ => 0), prefix, bits)
  }

  predicate ZeroCount(b: bytes) {
    |b| >= 16 && b[12] == 0 && b[13] == 0 && b[14] == 0 && b[15] == 0
  }

  lemma MeetIff(mask: nat, state: nat)
    ensures And(mask, state) != 0 <==> StatesMeet(mask, state)
  {
    if And(mask, state) != 0 {
      var k := SomeBit(And(mask, state));
      AndBit(mask, state, k);
    } else if StatesMeet(mask, state) {
      var k :| Bit(mask, k) && Bit(state, k);
      AndBit(mask, state, k);
      BitOfZero(k);
    }
  }

  lemma Bit8(mask: nat)
    ensures And(mask, 0x100) != 0 <==> Bit(mask, 8)
  {
    PowersOfTwo();
    AndPow2(mask, 8);
  }

  lemma HeaderSays(f: Filter, flushing: bool, m: entry)
    ensures PassesHeader(f, flushing, m) <==> HeaderWanted(f, flushing, m)
  {
    assert IfIndex(m) == IndexOfEntry(m) && State(m) == StateOfEntry(m) && MsgType(m) == TypeOf(m);
    MeetIff(f.state, State(m));
    Bit8(f.state);
    FlagBits(m[26]);
    hide And, Bit, IfIndex, State, MsgType, IndexOfEntry, StateOfEntry, TypeOf, StatesMeet;
  }

  lemma AttrsSay(env: Env, f: Filter, m: entry)
    requires Testable(env, f, m)
    ensures PassesAttrs(env, f, m) <==> AttrsWanted(f, m)
  {
    hide Field, InetAddrMatch, SameBits;
    var dst, info := Field(m, 1), Field(m, 3);
    if dst.Some? && f.prefixFamily != 0 {
      MatchIsPrefix(Padded256(dst.value), f.prefix, f.prefixBits, env.big);
    }
    if info.Some? && |info.value| >= 16 { assert Get32(info.value, 12) == 0 <==> ZeroCount(info.value); }
  }

  /** Under a filter by master device, the dump says so once the fixed part has passed, unless the
      kernel has filtered (flag 0x20). */
  function WarningSaid(f: Filter, m: entry): string {
    if f.master && m[6] / 32 % 2 == 0
    then "\nWARNING: Kernel does not support filtering by master device\n\n" else ""
  }

  lemma WarningSays(f: Filter, m: entry)
    ensures Warning(f, m) == WarningSaid(f, m)
  {
    var flags := MsgFlags(m);
    PowersOfTwo();
    Pow2Small();
    AndPow2(flags, 5);
    BitIs(flags, 5);
    assert flags == m[6] as int + 0x100 * m[7] as int;
    hide And, Bit, Pow2, MsgFlags;
    assert flags / 32 == m[6] / 32 + 8 * (m[7] as int);
  }

  /** What `print_neigh` prints of any message when it is not flushing. */
  lemma PrintedSays(env: Env, f: Filter, m: message)
    requires Legible(env, f, false, m)
    ensures Printed(env, f, m) ==
            if AboutNeighbour(m) && |m| >= 28 && HeaderWanted(f, false, m) then
              WarningSaid(f, m) + if AttrsWanted(f, m) then Said(env, f, m) + "\n" else ""
            else ""
  {
    assert |m| >= 28 <==> |m| >= ATTRS;
    hide *;
    PrintedAs(env, f, m);
    DecideSays(env, f, false, m);
    if |m| >= ATTRS {
      WarningSays(f, m);
      LineSays(env, f, m);
      Grouped(Warning(f, m), Line(env, f, m));
    }
  }

  lemma PrintedAs(env: Env, f: Filter, m: message)
    requires Legible(env, f, false, m)
    ensures Printed(env, f, m) ==
            match Decide(env, f, false, m)
            case Ignored => ""
            case Broken => ""
            case Filtered => Warning(f, m)
            case Accepted => Warning(f, m) + Line(env, f, m) + "\n"
  {
    hide Line, Warning;
  }

  lemma Grouped(warning: string, line: string)
    ensures warning + "" == warning && warning + line + "\n" == warning + (line + "\n")
  {
  }

  /** What is done with any message, under any filter. */
  lemma DecideSays(env: Env, f: Filter, flushing: bool, m: message)
    requires Legible(env, f, flushing, m)
    ensures Decide(env, f, flushing, m) ==
            if !AboutNeighbour(m) then Ignored
            else if |m| < 28 then Broken
            else if !HeaderWanted(f, flushing, m) then Ignored
            else if !AttrsWanted(f, m) then Filtered
            else Accepted
  {
    assert MsgType(m) == TypeOf(m);
    hide MsgType, TypeOf;
    if |m| >= 28 {
      HeaderSays(f, flushing, m);
      hide HeaderWanted, PassesHeader;
      if AboutNeighbour(m) && HeaderWanted(f, flushing, m) {
        AttrsSay(env, f, m);
        hide AttrsWanted, PassesAttrs;
      }
    }
  }

  // ---- The program's own request and filter ---------------------------------------

  /** The request that goes out: 28 bytes, type 30 (RTM_GETNEIGH), flags 0x301 (a dump), the sequence
      number, and nothing else. */
  lemma ShowRequestBytes(seqNo: nat)
    requires seqNo < TWO_TO_THE_32
    ensures ShowRequest(seqNo) == [28, 0, 0, 0, 30, 0, 1, 3] + Octet4(seqNo) + seq(16, _ => 0)
  {
    var r := ShowRequest(seqNo);
    assert Put32(seqNo) == Octet4(seqNo);
    assert EmptyRequest()[16..] == seq(12, _ => 0);
    hide Put32, Octet4;
    assert r == [28, 0, 0, 0] + [30, 0] + [1, 3] + Octet4(seqNo) + Put32(0) + seq(12, _ => 0);
    assert Put32(0) == [0, 0, 0, 0] by { NoOctets(); }
  }

  lemma NoOctets()
    ensures Put32(0) == [0, 0, 0, 0]
  {
  }

  /** A 32-bit number, low byte first. */
  function Octet4(v: nat): (b: bytes)
    requires v < TWO_TO_THE_32
    ensures |b| == 4
  {
    [v % 0x100, v / 0x100 % 0x100, v / 0x1_0000 % 0x100, v / 0x100_0000]
  }

  /** Which entries the show filter lets through: those in some known state other
      than NOARP (flag 6), proxies (0x08), and DECnet entries (12), of whatever type. */
  lemma ShowAccepts(env: Env, m: message)
    requires Legible(env, ShowFilter(), false, m)
    ensures Decide(env, ShowFilter(), false, m).Accepted? <==>
            && AboutNeighbour(m) && |m| >= 28
            && ((exists k :: 0 <= k < 8 && k != 6 && StateOfEntry(m) / Pow2(k) % 2 == 1)
                || m[26] / 8 % 2 == 1 || m[16] == 12)
  {
    DecideSays(env, ShowFilter(), false, m);
    if |m| >= 28 {
      ShowMask(StateOfEntry(m));
      NoBit8();
      hide Field, StateOfEntry, IndexOfEntry, Bit, StatesMeet, AboutNeighbour;
    }
  }

  lemma NoBit8()
    ensures !Bit(SHOW_STATES, 8)
  {
    ShowBits(8);
  }

  lemma ShowMask(state: nat)
    ensures StatesMeet(SHOW_STATES, state) <==> exists k :: 0 <= k < 8 && k != 6 && state / Pow2(k) % 2 == 1
  {
    hide Bit, Pow2;
    if StatesMeet(SHOW_STATES, state) {
      var k :| Bit(SHOW_STATES, k) && Bit(state, k);
      ShowBits(k);
      BitIs(state, k);
    } else {
      forall k | 0 <= k < 8 && k != 6 ensures state / Pow2(k) % 2 != 1 {
        ShowBits(k);
        BitIs(state, k);
      }
    }
  }

  lemma ShowBits(k: nat)
    ensures Bit(SHOW_STATES, k) <==> k < 8 && k != 6
  {
    if k >= 8 {
      PowersOfTwo();
      HighBit(SHOW_STATES, 8, k);
    } else {
      assert Bit(0xBF, 0) && Bit(0xBF, 1) && Bit(0xBF, 2) && Bit(0xBF, 3);
      assert Bit(0xBF, 4) && Bit(0xBF, 5) && !Bit(0xBF, 6) && Bit(0xBF, 7);
    }
  }
}
