/** Filtering and printing one neighbour entry: `print_neigh` (ipneigh.c:178-312). */
module Neighbour {
  import opened Bytes
  import opened BitOps
  import opened Netlink
  import opened Attributes
  import opened Common
  import opened PrefixMatch
  import opened Text
  import opened LinkAddress
  import opened DumpFilter
  import opened FlushQueue

  const RTM_NEWNEIGH := 28
  const RTM_GETNEIGH := 30
  const NLM_F_DUMP_FILTERED := 0x20

  /** The message header and `ndmsg`; attributes start here. */
  const ATTRS := 28

  const NDA_DST := 1
  const NDA_LLADDR := 2
  const NDA_CACHEINFO := 3
  /** The last attribute type that the kernel headers know. */
  const NDA_MAX := 14

  const NTF_PROXY := 0x08
  const NTF_ROUTER := 0x80

  const AF_DECNET := 12
  const AF_PACKET := 17
  const SPRINT_BSIZE := 64
  const HOST_BSIZE := 256

  /** The libraries underneath: `inet_ntop`, `ll_index_to_name`, `ll_index_to_type`,
      and the byte order of the host. */
  datatype Env = Env(ntop: (nat, bytes) -> string, ifName: nat -> string, ifKind: nat -> int, big: bool)

  /** The static `filter`, its flush fields apart. */
  datatype Filter = Filter(
    family: nat, index: nat, state: nat, unusedOnly: bool,
    prefixFamily: nat, prefix: address, prefixBits: nat, master: bool)

  // ---- Fields of an entry ---------------------------------------------------

  type entry = m: message | |m| >= ATTRS
    witness [28, 0, 0, 0, 0, 0, 0, 0, 0, 0, 0, 0, 0, 0, 0, 0, 0, 0, 0, 0, 0, 0, 0, 0, 0, 0, 0, 0]

  function Family(m: entry): nat { m[16] }
  function IfIndex(m: entry): nat { Get32(m, 20) }
  function State(m: entry): nat { Get16(m, 24) }
  function NdFlags(m: entry): nat { m[26] }

  function AttrAt(m: entry, kind: nat): Option<nat> {
    FirstAt(m, |m|, ATTRS, kind, 0)
  }

  /** RTA_DATA and RTA_PAYLOAD of `tb[kind]`. */
  function Field(m: entry, kind: nat): Option<bytes> {
    PayloadAt(m, |m|, AttrAt(m, kind))
  }

  // ---- Filtering ------------------------------------------------------------

  predicate IsNeighType(kind: nat) {
    kind == RTM_NEWNEIGH || kind == RTM_DELNEIGH || kind == RTM_GETNEIGH
  }

  /** The tests on the fixed part of the entry. */
  predicate PassesHeader(f: Filter, flushing: bool, m: entry) {
    && !(flushing && MsgType(m) != RTM_NEWNEIGH)
    && !(f.family != 0 && f.family != Family(m))
    && !(f.index != 0 && f.index != IfIndex(m))
    && !(&& And(f.state, State(m)) == 0
         && And(NdFlags(m), NTF_PROXY) == 0
         && (State(m) != 0 || And(f.state, 0x100) == 0)
         && Family(m) != AF_DECNET)
  }

  /** `memcpy` into the zeroed `dst.data`. */
  function Padded256(p: bytes): address
    requires |p| <= DATA_SIZE
  {
    p + seq(DATA_SIZE - |p|, _ => 0)
  }

  /** An address to match fits its buffer, and the prefix its length. */
  predicate Matchable(f: Filter, m: entry) {
    var dst := Field(m, NDA_DST);
    dst.Some? && f.prefixFamily != 0 ==> |dst.value| <= DATA_SIZE && f.prefixBits <= 8 * DATA_SIZE
  }

  /** The destination lies outside the wanted prefix. */
  predicate Differs(env: Env, f: Filter, m: entry)
    requires Matchable(f, m)
  {
    var dst := Field(m, NDA_DST);
    dst.Some? && f.prefixFamily != 0 && InetAddrMatch(Padded256(dst.value), f.prefix, f.prefixBits, env.big) != 0
  }

  /** A cache record to test is complete. */
  predicate Countable(f: Filter, m: entry) {
    var info := Field(m, NDA_CACHEINFO);
    info.Some? && f.unusedOnly ==> |info.value| >= 16
  }

  /** The cache record counts references, and only unused entries are wanted. */
  predicate Referenced(f: Filter, m: entry)
    requires Countable(f, m)
  {
    var info := Field(m, NDA_CACHEINFO);
    f.unusedOnly && info.Some? && Get32(info.value, 12) != 0
  }

  predicate Testable(env: Env, f: Filter, m: entry) {
    Matchable(f, m) && (!Differs(env, f, m) ==> Countable(f, m))
  }

  /** The tests on the attributes. */
  predicate PassesAttrs(env: Env, f: Filter, m: entry)
    requires Testable(env, f, m)
  {
    !Differs(env, f, m) && !Referenced(f, m)
  }

  /** An address to print as hex is not empty. */
  predicate Printable(m: entry) {
    var dst, link := Field(m, NDA_DST), Field(m, NDA_LLADDR);
    && (link.Some? ==> link.value != [])
    && (dst.Some? && Family(m) == AF_PACKET ==> dst.value != [])
  }

  /** Messages of another type are skipped, short ones are an error. */
  datatype Verdict = Ignored | Broken | Filtered | Accepted

  /** What the code relies on without a check when it gets so far as to read the attributes,
      and to print them. */
  predicate Legible(env: Env, f: Filter, flushing: bool, m: message) {
    IsNeighType(MsgType(m)) && |m| >= ATTRS && PassesHeader(f, flushing, m) ==>
      Testable(env, f, m) && (!flushing && PassesAttrs(env, f, m) ==> Printable(m))
  }

  function Decide(env: Env, f: Filter, flushing: bool, m: message): Verdict
    requires Legible(env, f, flushing, m)
  {
    if !IsNeighType(MsgType(m)) then Ignored
    else if |m| < ATTRS then Broken
    else if !PassesHeader(f, flushing, m) then Ignored
    else if !PassesAttrs(env, f, m) then Filtered
    else Accepted
  }

  // ---- Printing -------------------------------------------------------------

  const WARNING := "\nWARNING: Kernel does not support filtering by master device\n\n"

  /** Printed once the fixed part has passed, whatever the attributes say. */
  function Warning(f: Filter, m: entry): string {
    if f.master && And(MsgFlags(m), NLM_F_DUMP_FILTERED) == 0 then WARNING else ""
  }

  /** `format_host` with the cases that the Android build has. */
  function HostText(env: Env, family: nat, addr: bytes): string {
    if family == AF_INET || family == AF_INET6 then env.ntop(family, addr)
    else if family == AF_PACKET then CStr(Bounded(HexColon(addr), HOST_BSIZE))
    else "???"
  }

  /** The text that `ll_addr_n2a` leaves in a buffer of 64 characters. */
  function LinkField(env: Env, m: entry, addr: bytes): string {
    var kind := env.ifKind(IfIndex(m));
    var text := LinkText(env.ntop, addr, kind);
    if IsTunnel(|addr|, kind) && |text| >= SPRINT_BSIZE then "(null)"
    else CStr(Bounded(text, SPRINT_BSIZE))
  }

  function FlagName(k: nat): string
    requires k < 8
  {
    ["INCOMPLETE", "REACHABLE", "STALE", "DELAY", "PROBE", "FAILED", "NOARP", "PERMANENT"][k]
  }

  /** The flags from bit `k` on, each bit cleared as it is printed. */
  function FlagText(nud: nat, k: nat): string
    requires k <= 8
    decreases 8 - k
  {
    if k == 8 then ""
    else if And(nud, Pow2(k)) == 0 then FlagText(nud, k + 1)
    else
      var left := AndNot16(nud, Pow2(k));
      FlagName(k) + (if left != 0 then "," else "") + FlagText(left, k + 1)
  }

  function StateText(state: nat): string {
    if state == 0 then "" else " " + FlagText(state, 0)
  }

  function TypeText(m: message): string {
    if MsgType(m) == RTM_DELNEIGH then "Deleted " else if MsgType(m) == RTM_GETNEIGH then "miss " else ""
  }

  function DstText(env: Env, m: entry): string {
    if Field(m, NDA_DST).Some? then HostText(env, Family(m), Field(m, NDA_DST).value) + " " else ""
  }

  function DevText(env: Env, f: Filter, m: entry): string {
    if f.index == 0 && IfIndex(m) != 0 then "dev " + env.ifName(IfIndex(m)) + " " else ""
  }

  function LladdrText(env: Env, m: entry): string {
    if Field(m, NDA_LLADDR).Some? then "lladdr " + LinkField(env, m, Field(m, NDA_LLADDR).value) else ""
  }

  function RouterText(m: entry): string {
    if And(NdFlags(m), NTF_ROUTER) != 0 then " router" else ""
  }

  function ProxyText(m: entry): string {
    if And(NdFlags(m), NTF_PROXY) != 0 then " proxy" else ""
  }

  /** One line of output, without its newline. */
  function Line(env: Env, f: Filter, m: entry): string {
    TypeText(m) + DstText(env, m) + DevText(env, f, m) + LladdrText(env, m) +
    RouterText(m) + ProxyText(m) + StateText(State(m))
  }

  /** All that a call prints when it is not flushing. */
  function Printed(env: Env, f: Filter, m: message): string
    requires Legible(env, f, false, m)
  {
    match Decide(env, f, false, m)
    case Ignored => ""
    case Broken => ""
    case Filtered => Warning(f, m)
    case Accepted => Warning(f, m) + Line(env, f, m) + "\n"
  }

  // ---- The request ----------------------------------------------------------

  /** `0xFF & ~NUD_NOARP`. */
  const SHOW_STATES := 0xBF

  function ShowFilter(): Filter {
    Filter(0, 0, SHOW_STATES, false, 0, seq(DATA_SIZE, _ => 0), 0, false)
  }

  function EmptyRequest(): (m: entry)
    ensures |m| == ATTRS && MsgType(m) == RTM_GETNEIGH
  {
    [ATTRS, 0, 0, 0, RTM_GETNEIGH] + seq(23, _ => 0)
  }

  /** The dump request that goes out, with its sequence number. */
  function ShowRequest(seqNo: nat): message {
    Restamped(EmptyRequest(), RTM_GETNEIGH, NLM_F_DUMP + NLM_F_REQUEST, seqNo, 0)
  }

  // ---- The program ----------------------------------------------------------

  class IpNeigh {
    const env: Env
    const rth: RtnlHandle
    var filter: Filter
    var flushb: array?<byte>
    var flushp: nat
    var flushe: nat
    var flushed: nat
    /** The text written to the pipe. */
    var out: string
    ghost var retired: seq<bytes>

    constructor (env: Env, rth: RtnlHandle)
      ensures this.env == env && this.rth == rth && flushb == null && out == ""
      ensures flushp == flushe == flushed == 0 && retired == []
    {
      this.env, this.rth := env, rth;
      filter := Filter(0, 0, 0, false, 0, seq(DATA_SIZE, _ => 0), 0, false);
      flushb, flushp, flushe, flushed, out, retired := null, 0, 0, 0, "", [];
    }

    /** `ipneigh_reset_filter`. */
    method ResetFilter(ifindex: nat)
      modifies this`filter, this`flushb, this`flushp, this`flushe, this`flushed
      ensures filter == Filter(0, ifindex, 0xFFFF_FFFF, false, 0, seq(DATA_SIZE, _ => 0), 0, false)
      ensures flushb == null && flushp == flushe == flushed == 0
    {
      filter := Filter(0, ifindex, 0xFFFF_FFFF, false, 0, seq(DATA_SIZE, _ => 0), 0, false);
      flushb, flushp, flushe, flushed := null, 0, 0, 0;
    }

    /** `do_show_or_flush` up to its request: every family, every state but NOARP. */
    method RequestShow()
      modifies this`filter, this`flushb, this`flushp, this`flushe, this`flushed, rth`seqNo, rth`dump, rth`wire
      ensures filter == ShowFilter() && flushb == null
      ensures rth.seqNo == rth.dump == (old(rth.seqNo) + 1) % TWO_TO_THE_32
      ensures rth.wire == old(rth.wire) + [ShowRequest(rth.dump)]
    {
      ResetFilter(0);
      filter := filter.(state := SHOW_STATES);
      var req := new byte[ATTRS](_ => 0);
      req[0], req[4] := ATTRS, RTM_GETNEIGH;
      assert req[..] == EmptyRequest();
      rth.DumpRequest(req);
    }

    ghost function QueueNow(): Queue
      reads this, rth, flushb
      requires flushb != null
    {
      Queue(flushb[..], flushp, flushe, flushed, rth.seqNo, rth.errno, retired, rth.wire)
    }

    /** `flush_update`. */
    method FlushNow(reply: Reply) returns (status: int)
      requires flushb != null && QueueNow().Valid()
      requires reply.Answered? ==> |reply.data| <= 1024
      modifies this`flushp, this`retired, rth`errno, rth`wire
      ensures flushb == old(flushb) && (QueueNow(), status == 0) == FlushUpdate(old(QueueNow()), reply)
      ensures status == 0 || status == -1
      ensures status == 0 ==> flushp == 0
    {
      if !reply.SendFailed? {
        rth.wire := rth.wire + [flushb[..flushp]];
      } else {
        assert rth.wire + [] == rth.wire;
      }
      var sent, errno := SendCheck(reply, rth.errno);
      rth.errno := errno;
      if sent < 0 && errno != EADDRNOTAVAIL {
        return -1;
      }
      retired := retired + [flushb[..flushp]];
      flushp := 0;
      return 0;
    }

    /** The flush branch of `print_neigh`. */
    method QueueEntry(n: array<byte>, reply: Reply) returns (status: int)
      requires flushb != null && n != flushb && QueueNow().Valid()
      requires IsMsg(n[..]) && n.Length <= flushe
      requires reply.Answered? ==> |reply.data| <= 1024
      modifies this`flushp, this`flushed, this`retired, rth`errno, rth`wire, rth`seqNo, flushb
      ensures flushb == old(flushb) && (QueueNow(), status == 0) == Enqueue(old(QueueNow()), old(n[..]), reply)
      ensures status == 0 || status == -1
    {
      assert Align4(0) == 0;
      hide FlushUpdate, Align4, Append;
      if Align4(flushp) + n.Length > flushe {
        status := FlushNow(reply);
        if status != 0 {
          return;
        }
      }
      CopyEntry(n);
      return 0;
    }

    /** The copy into the buffer, which has room for it. */
    method CopyEntry(n: array<byte>)
      requires flushb != null && n != flushb && QueueNow().Valid()
      requires IsMsg(n[..]) && Align4(flushp) + n.Length <= flushe
      modifies this`flushp, this`flushed, rth`seqNo, flushb
      ensures flushb == old(flushb) && QueueNow() == Append(old(QueueNow()), old(n[..]))
    {
      hide Splice, Rewritten, Align4;
      var fn, seqNo := Align4(flushp), (rth.seqNo + 1) % TWO_TO_THE_32;
      StoreRewritten(flushb, fn, n, seqNo);
      rth.seqNo := seqNo;
      flushp := fn + n.Length;
      flushed := flushed + 1;
    }

    /** The filter callback. `n` is the message; `reply` is what the kernel would
        answer if the queue had to be flushed. */
    method PrintNeigh(n: array<byte>, reply: Reply) returns (status: int)
      requires IsMsg(n[..]) && Legible(env, filter, flushb != null, n[..])
      requires flushb != null ==> n != flushb && QueueNow().Valid() && n.Length <= flushe
      requires reply.Answered? ==> |reply.data| <= 1024
      modifies this`flushp, this`flushed, this`retired, this`out, rth`errno, rth`wire, rth`seqNo, flushb
      ensures flushb == old(flushb) && rth.dump == old(rth.dump)
      ensures flushb == null ==>
        && out == old(out) + Printed(env, filter, old(n[..]))
        && status == (if Decide(env, filter, false, old(n[..])).Broken? then -1 else 0)
        && unchanged(this`flushp, this`flushed, this`retired) && unchanged(rth)
      ensures flushb != null ==>
        var m, v := old(n[..]), Decide(env, filter, true, old(n[..]));
        && out == old(out) + (if v.Filtered? || v.Accepted? then Warning(filter, m) else "")
        && if v.Accepted? then (QueueNow(), status == 0) == Enqueue(old(QueueNow()), m, reply)
           else QueueNow() == old(QueueNow()) && status == if v.Broken? then -1 else 0
    {
      hide Field, FirstAt, Enqueue, Line, Warning, PassesAttrs, PassesHeader, Get16, Get32, Testable, Printable;
      if !IsNeighType(Load16(n, 4)) {
        return 0;
      }
      if n.Length < ATTRS {
        return -1;
      }
      if !HeaderTests(n) {
        return 0;
      }
      out := out + Warning(filter, n[..]);
      var tb := new Option<nat>[NDA_MAX + 1];
      ParseRtattr(tb, NDA_MAX, n, ATTRS, n.Length - ATTRS);
      var pass := AttrTests(n, tb);
      if !pass {
        return 0;
      }
      if flushb != null {
        status := QueueEntry(n, reply);
        return;
      }
      PrintLine(n, tb);
      return 0;
    }

    /** The tests on the fixed part of the entry, as the code reads them. */
    predicate HeaderTests(n: array<byte>): (r: bool)
      requires IsMsg(n[..]) && n.Length >= ATTRS
      reads this, n
      ensures r == PassesHeader(filter, flushb != null, n[..])
    {
      if flushb != null && Load16(n, 4) != RTM_NEWNEIGH then false
      else if filter.family != 0 && filter.family != n[16] then false
      else if filter.index != 0 && filter.index != Load32(n, 20) then false
      else !(And(filter.state, Load16(n, 24)) == 0 && And(n[26], NTF_PROXY) == 0 &&
             (Load16(n, 24) != 0 || And(filter.state, 0x100) == 0) && n[16] != AF_DECNET)
    }

    /** The prefix and reference-count tests. */
    method AttrTests(n: array<byte>, tb: array<Option<nat>>) returns (pass: bool)
      requires IsMsg(n[..]) && n.Length >= ATTRS && Testable(env, filter, n[..])
      requires Parsed(n, tb)
      ensures pass == PassesAttrs(env, filter, n[..])
    {
      var differs := PrefixDiffers(n, tb);
      if differs {
        return false;
      }
      var referenced := StillReferenced(n, tb);
      return !referenced;
    }

    method PrefixDiffers(n: array<byte>, tb: array<Option<nat>>) returns (r: bool)
      requires IsMsg(n[..]) && n.Length >= ATTRS && Matchable(filter, n[..])
      requires Parsed(n, tb)
      ensures r <==> Differs(env, filter, n[..])
    {
      hide FirstAt, InetAddrMatch, Get32, Padded256;
      if tb[NDA_DST].None? || filter.prefixFamily == 0 {
        return false;
      }
      var dst := RtaPayload(n, tb[NDA_DST].value);
      return InetAddrMatch(Padded256(dst), filter.prefix, filter.prefixBits, env.big) != 0;
    }

    method StillReferenced(n: array<byte>, tb: array<Option<nat>>) returns (r: bool)
      requires IsMsg(n[..]) && n.Length >= ATTRS && Countable(filter, n[..])
      requires Parsed(n, tb)
      ensures r <==> Referenced(filter, n[..])
    {
      hide FirstAt, Get32;
      if !filter.unusedOnly || tb[NDA_CACHEINFO].None? {
        return false;
      }
      return Get32(RtaPayload(n, tb[NDA_CACHEINFO].value), 12) != 0;
    }

    /** The printing branch of `print_neigh`. */
    method PrintLine(n: array<byte>, tb: array<Option<nat>>)
      requires IsMsg(n[..]) && n.Length >= ATTRS && Printable(n[..])
      requires Parsed(n, tb)
      modifies this`out
      ensures out == old(out) + Line(env, filter, n[..]) + "\n"
    {
      ghost var start, m: entry := out, n[..];
      hide *;
      PrintType(n);
      PrintDst(n, tb);
      PrintDev(n);
      PrintLladdr(n, tb);
      PrintFlags(n);
      PrintState(n);
      out := out + "\n";
      LineParts(start, env, filter, m);
    }

    method PrintType(n: array<byte>)
      requires IsMsg(n[..])
      modifies this`out
      ensures out == old(out) + TypeText(n[..])
    {
      hide Get16;
      ghost var start := out;
      if Load16(n, 4) == RTM_DELNEIGH {
        out := out + "Deleted ";
      } else if Load16(n, 4) == RTM_GETNEIGH {
        out := out + "miss ";
      } else {
        assert start + "" == start;
      }
    }

    method PrintDst(n: array<byte>, tb: array<Option<nat>>)
      requires IsMsg(n[..]) && n.Length >= ATTRS && Parsed(n, tb)
      modifies this`out
      ensures out == old(out) + DstText(env, n[..])
    {
      hide FirstAt, HostText;
      ghost var start := out;
      if tb[NDA_DST].Some? {
        out := out + (HostText(env, n[16], RtaPayload(n, tb[NDA_DST].value)) + " ");
      } else {
        assert start + "" == start;
      }
    }

    method PrintDev(n: array<byte>)
      requires IsMsg(n[..]) && n.Length >= ATTRS
      modifies this`out
      ensures out == old(out) + DevText(env, filter, n[..])
    {
      hide Get32;
      ghost var start := out;
      var ifindex := Load32(n, 20);
      if filter.index == 0 && ifindex != 0 {
        out := out + ("dev " + env.ifName(ifindex) + " ");
      } else {
        assert start + "" == start;
      }
    }

    method PrintLladdr(n: array<byte>, tb: array<Option<nat>>)
      requires IsMsg(n[..]) && n.Length >= ATTRS && Parsed(n, tb) && Printable(n[..])
      modifies this`out
      ensures out == old(out) + LladdrText(env, n[..])
    {
      hide FirstAt, LinkText, Get32;
      ghost var start := out;
      if tb[NDA_LLADDR].Some? {
        var text := FormatLink(n, RtaPayload(n, tb[NDA_LLADDR].value));
        out := out + ("lladdr " + text);
      } else {
        assert start + "" == start;
      }
    }

    /** `ll_addr_n2a` into a local buffer, read back as a C string. */
    method FormatLink(n: array<byte>, addr: bytes) returns (text: string)
      requires IsMsg(n[..]) && n.Length >= ATTRS && addr != []
      ensures text == LinkField(env, n[..], addr)
    {
      hide LinkText, Get32;
      var b1 := new char[SPRINT_BSIZE];
      ghost var s := b1[..];
      var kind := env.ifKind(Load32(n, 20));
      var ok := LlAddrN2a(env.ntop, addr, kind, b1, SPRINT_BSIZE);
      if ok {
        CStrPrefix(s, Bounded(LinkText(env.ntop, addr, kind), SPRINT_BSIZE));
        text := CStr(b1[..]);
      } else {
        text := "(null)";
      }
    }

    method PrintFlags(n: array<byte>)
      requires IsMsg(n[..]) && n.Length >= ATTRS
      modifies this`out
      ensures out == old(out) + RouterText(n[..]) + ProxyText(n[..])
    {
      hide And;
      ghost var start := out;
      var flags := n[26];
      if And(flags, NTF_ROUTER) != 0 {
        out := out + " router";
      }
      assert out == start + RouterText(n[..]);
      if And(flags, NTF_PROXY) != 0 {
        out := out + " proxy";
      }
    }

    method PrintState(n: array<byte>)
      requires IsMsg(n[..]) && n.Length >= ATTRS
      modifies this`out
      ensures out == old(out) + StateText(Get16(n[..], 24))
    {
      hide FlagText, Get16;
      ghost var start := out;
      var nud := Load16(n, 24);
      if nud != 0 {
        out := out + " ";
        ghost var flags := FlagText(nud, 0);
        assert start + (" " + flags) == out + flags;
        for k := 0 to 8
          invariant start + (" " + flags) == out + FlagText(nud, k)
        {
          nud := PrintFlag(nud, k);
        }
        FlagTextEnd(nud, out);
      } else {
        assert start + "" == start;
      }
    }

    /** The macro PRINT_FLAG for the flag with bit `k`. */
    method PrintFlag(nud: nat, k: nat) returns (left: nat)
      requires k < 8
      modifies this`out
      ensures old(out) + FlagText(nud, k) == out + FlagText(left, k + 1)
    {
      FlagTextNext(out, nud, k);
      hide And, AndNot16, Pow2, FlagText, FlagName;
      left := nud;
      if And(nud, Pow2(k)) != 0 {
        left := AndNot16(nud, Pow2(k));
        out := out + (FlagName(k) + if left != 0 then "," else "");
      }
    }
  }

  /** What `parse_rtattr` leaves in `tb`. */
  ghost predicate Parsed(n: array<byte>, tb: array<Option<nat>>)
    requires IsMsg(n[..]) && n.Length >= ATTRS
    reads n, tb
  {
    tb.Length == NDA_MAX + 1 && forall t :: 0 <= t <= NDA_MAX ==> tb[t] == AttrAt(n[..], t)
  }

  /** RTA_DATA and RTA_PAYLOAD of a stored attribute. */
  function RtaPayload(n: array<byte>, rta: nat): bytes
    requires OnAttr(n[..], n.Length, rta)
    reads n
  {
    n[..][rta + RTA_HDRLEN..rta + Load16(n, rta)]
  }

  lemma FlagTextNext(start: string, nud: nat, k: nat)
    requires k < 8
    ensures start + FlagText(nud, k) ==
            if And(nud, Pow2(k)) != 0 then
              var left := AndNot16(nud, Pow2(k));
              start + (FlagName(k) + if left != 0 then "," else "") + FlagText(left, k + 1)
            else start + FlagText(nud, k + 1)
  {
    hide And, AndNot16, Pow2, FlagName;
    if And(nud, Pow2(k)) != 0 {
      var left := AndNot16(nud, Pow2(k));
      FlagTextParts(start, FlagName(k), if left != 0 then "," else "", FlagText(left, k + 1));
    }
  }

  lemma FlagTextParts(start: string, name: string, comma: string, rest: string)
    ensures start + (name + comma + rest) == start + (name + comma) + rest
  {
  }

  lemma FlagTextEnd(nud: nat, out: string)
    ensures out + FlagText(nud, 8) == out
  {
  }

  lemma LineParts(start: string, env: Env, f: Filter, m: entry)
    ensures start + TypeText(m) + DstText(env, m) + DevText(env, f, m) + LladdrText(env, m) + RouterText(m) +
            ProxyText(m) + StateText(Get16(m, 24)) + "\n" ==
            start + Line(env, f, m) + "\n"
  {
    hide TypeText, DstText, DevText, LladdrText, RouterText, ProxyText, StateText;
    var a, b, c, d, e, g, h := TypeText(m), DstText(env, m), DevText(env, f, m), LladdrText(env, m), RouterText(m),
      ProxyText(m), StateText(Get16(m, 24));
    assert start + a + b + c + d + e + g + h == start + (a + b + c + d + e + g + h);
  }

  /** `memcpy`, then the three header fields in the copy. */
  method StoreRewritten(buf: array<byte>, fn: nat, n: array<byte>, seqNo: nat)
    requires IsMsg(n[..]) && fn + n.Length <= buf.Length && n != buf
    modifies buf
    ensures buf[..] == Splice(old(buf[..]), fn, Rewritten(n[..], seqNo))
  {
    FlushStores(buf[..], fn, n[..], seqNo);
    hide Splice, Rewritten, Put16, Put32;
    Store(buf, fn, n[..]);
    Store(buf, fn + 4, Put16(RTM_DELNEIGH));
    Store(buf, fn + 6, Put16(NLM_F_REQUEST));
    Store(buf, fn + 8, Put32(seqNo));
  }

  /** The copy and the three field stores write one restamped entry. */
  lemma FlushStores(s: bytes, fn: nat, m: message, seqNo: nat)
    requires fn + |m| <= |s|
    ensures Splice(Splice(Splice(Splice(s, fn, m), fn + 4, Put16(RTM_DELNEIGH)), fn + 6, Put16(NLM_F_REQUEST)),
                   fn + 8, Put32(seqNo)) ==
            Splice(s, fn, Rewritten(m, seqNo))
  {
    var k, g, q := Put16(RTM_DELNEIGH), Put16(NLM_F_REQUEST), Put32(seqNo);
    PutGet32(m, 12);
    var r := Rewritten(m, seqNo);
    hide Put16, Put32, Get32;
    assert r == m[..4] + k + g + q + m[12..];
    var s1 := Splice(s, fn, m);
    SpliceInside(s, fn, m, 4, k);
    var m1 := Splice(m, 4, k);
    SpliceInside(s, fn, m1, 6, g);
    var m2 := Splice(m1, 6, g);
    SpliceInside(s, fn, m2, 8, q);
    assert m2 == m[..4] + k + g + m[8..];
    assert Splice(m2, 8, q) == r;
  }

  lemma SpliceInside<T>(s: seq<T>, i: nat, t: seq<T>, j: nat, u: seq<T>)
    requires i + |t| <= |s| && j + |u| <= |t|
    ensures Splice(Splice(s, i, t), i + j, u) == Splice(s, i, Splice(t, j, u))
  {
  }
}
