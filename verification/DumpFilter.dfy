/**
 The netlink dump loop (libnetlink.c:154-335).

 `recvmsg` is a sequence of receipts, a filter callback is any function of the
 calls made so far and the call at hand, and every call is logged.
 */
module DumpFilter {
  import opened Bytes
  import opened BitOps
  import opened Netlink

  const EINTR := 4
  const ENOENT := 2
  const EOPNOTSUPP := 95
  const BUFFER_SIZE := 32768

  const NLM_F_DUMP := 0x300

  /** `recvmsg` never yields more than its buffer holds. */
  type datagram = d: bytes | |d| <= BUFFER_SIZE

  datatype Receipt =
    | RecvFailed(errno: int)
    | Datagram(pid: nat, data: datagram, truncated: bool)

  datatype Call = Call(filter: nat, pid: nat, msg: message)

  datatype FilterArg = FilterArg(run: (seq<Call>, Call) -> int, ncFlags: nat)

  /** How `rtnl_dump_filter_l` ends: it returns, it exits over a remnant, or it
      is still in `recvmsg` after the last receipt. */
  datatype Outcome = Returned(code: int) | Exited | Waiting

  /** The part of `rtnl_handle` that the loop reads. */
  datatype Handle = Handle(dump: nat, dumping: bool)

  // ---- One message --------------------------------------------------------

  /** `h->nlmsg_flags &= ~nc_flags` on the message at the cursor. */
  function ClearAt(s: bytes, n: nat, cur: nat, nc: nat): (r: bytes)
    requires OnMessage(s, n, cur)
    ensures |r| == |s| && OnMessage(r, n, cur) && Get32(r, cur) == Get32(s, cur)
  {
    var r := Splice(s, cur + 6, Put16(AndNot16(Get16(s, cur + 6), nc)));
    assert r[cur] == s[cur] && r[cur + 1] == s[cur + 1] && r[cur + 2] == s[cur + 2] && r[cur + 3] == s[cur + 3];
    r
  }

  function Cleared(m: message, nc: nat): (r: message)
    ensures |r| == |m|
  {
    ClearAt(m, |m|, 0, nc)
  }

  /** Clearing flags changes the flags alone. */
  lemma ClearedHeader(m: message, nc: nat)
    ensures var r := Cleared(m, nc);
      && MsgType(r) == MsgType(m) && MsgSeq(r) == MsgSeq(m)
      && MsgFlags(r) == AndNot16(MsgFlags(m), nc)
      && r[8..] == m[8..] && r[..6] == m[..6]
  {
    AndNot16Bound(MsgFlags(m), nc);
    var r := Cleared(m, nc);
    SpliceParts(m, 6, Put16(AndNot16(MsgFlags(m), nc)));
    Get16Within(r, 6, 8, 0);
    Get16Within(r, 0, 6, 4);
    Get16Within(m, 0, 6, 4);
    Get32Within(r, 8, |m|, 0);
    Get32Within(m, 8, |m|, 0);
  }

  /** `rtnl_dump_done`: negative when the dump ended in an error. */
  function DoneStatus(m: message): int {
    if |m| < NLMSG_HDRLEN + 4 then -1
    else
      var len := Signed32(Get32(m, NLMSG_HDRLEN));
      if len < 0 then (if -len == ENOENT || -len == EOPNOTSUPP then -1 else len) else 0
  }

  datatype Verdict = Skip | Finish | Fail | Deliver

  /** What the loop does with a message from `pid`. */
  function Judge(m: message, pid: nat, h: Handle): Verdict {
    if pid != 0 || MsgSeq(m) != h.dump then Skip
    else if MsgType(m) == NLMSG_DONE then (if DoneStatus(m) < 0 then Fail else Finish)
    else if MsgType(m) == NLMSG_ERROR then Fail
    else if h.dumping then Skip
    else Deliver
  }

  // ---- One filter over one datagram ---------------------------------------

  /** Either the whole call returns, or the pass ends with the buffer's new
      contents, the length left over, and whether DONE was found. */
  datatype Pass =
    | Halt(code: int, log: seq<Call>)
    | Through(data: bytes, log: seq<Call>, left: int, done: bool)

  /** The pass of one filter from a cursor into the `n` bytes received in `s`. */
  function PassFrom(s: bytes, n: nat, cur: nat, pid: nat, h: Handle, ix: nat, arg: FilterArg, log: seq<Call>): (r: Pass)
    requires n <= |s|
    ensures r.Through? ==> |r.data| == |s|
    decreases n - cur
  {
    if !OnMessage(s, n, cur) then Through(s, log, n - cur, false)
    else
      var s1 := ClearAt(s, n, cur, arg.ncFlags);
      var m := MessageAt(s1, n, cur);
      var next := cur + Align4(|m|);
      match Judge(m, pid, h)
      case Fail => Halt(-1, log)
      case Finish => Through(s1, log, n - cur, true)
      case Skip =>
        if next <= n then PassFrom(s1, n, next, pid, h, ix, arg, log)
        else Through(s1, log, n - next, false)
      case Deliver =>
        var err := arg.run(log, Call(ix, pid, m));
        var log1 := log + [Call(ix, pid, m)];
        if err < 0 then Halt(err, log1)
        else if next <= n then PassFrom(s1, n, next, pid, h, ix, arg, log1)
        else Through(s1, log1, n - next, false)
  }

  /** `h->nlmsg_flags &= ~nc_flags`, in place; `m` is the message at `h`. */
  method TakeMessage(buf: array<byte>, n: nat, cur: nat, nc: nat) returns (m: message)
    requires OnMessage(buf[..], n, cur)
    modifies buf
    ensures buf[..] == ClearAt(old(buf[..]), n, cur, nc)
    ensures m == MessageAt(buf[..], n, cur)
  {
    Store(buf, cur + 6, Put16(AndNot16(Load16(buf, cur + 6), nc)));
    hide ClearAt;
    m := buf[..][cur..cur + Load32(buf, cur)];
  }

  /** The walk of one filter over the `n` bytes received in `buf`. */
  method FilterBuffer(buf: array<byte>, n: nat, pid: nat, h: Handle, ix: nat, arg: FilterArg, log0: seq<Call>)
    returns (r: Pass)
    requires n <= buf.Length
    modifies buf
    ensures r == PassFrom(old(buf[..]), n, 0, pid, h, ix, arg, log0)
    ensures r.Through? ==> r.data == buf[..]
  {
    hide ClearAt, MessageAt, Get32, Align4, Signed32, IsMsg;
    var cur, left, log := 0, n, log0;
    while left >= NLMSG_HDRLEN && NLMSG_HDRLEN <= Load32(buf, cur) <= left
      invariant 0 <= cur && cur + left == n
      invariant PassFrom(old(buf[..]), n, 0, pid, h, ix, arg, log0) ==
                if left >= 0 then PassFrom(buf[..], n, cur, pid, h, ix, arg, log)
                else Through(buf[..], log, left, false)
      decreases left
    {
      var m := TakeMessage(buf, n, cur, arg.ncFlags);
      if pid == 0 && MsgSeq(m) == h.dump {
        if MsgType(m) == NLMSG_DONE {
          var err := DoneStatus(m);
          return if err < 0 then Halt(-1, log) else Through(buf[..], log, left, true);
        }
        if MsgType(m) == NLMSG_ERROR {
          return Halt(-1, log);
        }
        if !h.dumping {
          var err := arg.run(log, Call(ix, pid, m));
          log := log + [Call(ix, pid, m)];
          if err < 0 {
            return Halt(err, log);
          }
        }
      }
      cur, left := cur + Align4(|m|), left - Align4(|m|);
    }
    return Through(buf[..], log, left, false);
  }

  // ---- The whole dump -----------------------------------------------------

  /** Every filter in turn over one datagram. The flags that one filter clears
      stay cleared for the next. */
  function AllPasses(s: bytes, n: nat, pid: nat, h: Handle, args: seq<FilterArg>, i: nat,
                     log: seq<Call>, left: int, done: bool): (r: Pass)
    requires i <= |args| && n <= |s|
    ensures r.Through? ==> |r.data| == |s|
    decreases |args| - i
  {
    if i == |args| then Through(s, log, left, done)
    else
      match PassFrom(s, n, 0, pid, h, i, args[i], log)
      case Halt(code, log1) => Halt(code, log1)
      case Through(s1, log1, left1, done1) =>
        AllPasses(s1, n, pid, h, args, i + 1, log1, left1, done || done1)
  }

  predicate Transient(errno: int) {
    errno == EINTR || errno == EAGAIN
  }

  /** `rtnl_dump_filter_l` on a sequence of receipts; `s` is its buffer. */
  function Run(s: bytes, rs: seq<Receipt>, h: Handle, args: seq<FilterArg>, log: seq<Call>): (Outcome, seq<Call>)
    requires |s| == BUFFER_SIZE
    decreases |rs|
  {
    if rs == [] then (Waiting, log)
    else
      match rs[0]
      case RecvFailed(errno) =>
        if Transient(errno) then Run(s, rs[1..], h, args, log) else (Returned(-1), log)
      case Datagram(pid, data, truncated) =>
        if data == [] then (Returned(-1), log)
        else
          match AllPasses(Splice(s, 0, data), |data|, pid, h, args, 0, log, 0, false)
          case Halt(code, log1) => (Returned(code), log1)
          case Through(s1, log1, left, done) =>
            if done then (Returned(0), log1)
            else if !truncated && left != 0 then (Exited, log1)
            else Run(s1, rs[1..], h, args, log1)
  }

  /** The three field stores of a dump request restamp the message. */
  lemma DumpStores(m: message, flags: nat, seqNo: nat)
    ensures Splice(Splice(Splice(m, 6, Put16(flags)), 12, Put32(0)), 8, Put32(seqNo)) ==
            Restamped(m, MsgType(m), flags, seqNo, 0)
  {
    hide Put32;
    assert Put16(MsgType(m)) == m[4..6] by { PutGet16(m, 4); }
    var a := Splice(m, 6, Put16(flags));
    assert a == m[..6] + Put16(flags) + m[8..];
    var b := Splice(a, 12, Put32(0));
    assert b == m[..6] + Put16(flags) + m[8..12] + Put32(0) + m[16..];
    assert m[..6] == m[..4] + m[4..6];
  }

  class RtnlHandle {
    var seqNo: nat
    var dump: nat
    var dumping: bool
    var errno: int
    /** What has gone out through the socket. */
    var wire: seq<bytes>

    constructor (time: nat)
      ensures seqNo == time % TWO_TO_THE_32 && dump == 0 && !dumping && wire == []
    {
      seqNo, dump, dumping, errno, wire := time % TWO_TO_THE_32, 0, false, 0, [];
    }

    function View(): Handle
      reads this
    {
      Handle(dump, dumping)
    }

    /** `rtnl_dump_request_n`: stamps the request and remembers its number. */
    method DumpRequest(n: array<byte>)
      requires IsMsg(n[..])
      modifies this`seqNo, this`dump, this`wire, n
      ensures seqNo == dump == (old(seqNo) + 1) % TWO_TO_THE_32
      ensures n[..] == Restamped(old(n[..]), MsgType(old(n[..])), NLM_F_DUMP + NLM_F_REQUEST, dump, 0)
      ensures wire == old(wire) + [n[..]]
    {
      ghost var m := n[..];
      Store(n, 6, Put16(NLM_F_DUMP + NLM_F_REQUEST));
      Store(n, 12, Put32(0));
      seqNo := (seqNo + 1) % TWO_TO_THE_32;
      dump := seqNo;
      Store(n, 8, Put32(seqNo));
      wire := wire + [n[..]];
      DumpStores(m, NLM_F_DUMP + NLM_F_REQUEST, seqNo);
    }

    /** `rtnl_dump_filter_l`. */
    method DumpFilterL(rs: seq<Receipt>, args: seq<FilterArg>) returns (outcome: Outcome, log: seq<Call>)
      ensures exists s :: |s| == BUFFER_SIZE && (outcome, log) == Run(s, rs, View(), args, [])
    {
      var buf := new byte[BUFFER_SIZE];
      log := [];
      ghost var s0 := buf[..];
      var k := 0;
      while k < |rs|
        invariant k <= |rs|
        invariant Run(s0, rs, View(), args, []) == Run(buf[..], rs[k..], View(), args, log)
      {
        var r := rs[k];
        k := k + 1;
        assert rs[k - 1..][1..] == rs[k..];
        match r
        case RecvFailed(errno) =>
          if !Transient(errno) {
            return Returned(-1), log;
          }
        case Datagram(pid, data, truncated) =>
          if data == [] {
            return Returned(-1), log;
          }
          Store(buf, 0, data);
          var pass := FilterAll(buf, |data|, pid, View(), args, log);
          match pass
          case Halt(code, log1) =>
            return Returned(code), log1;
          case Through(s1, log1, left, done) =>
            log := log1;
            if done {
              return Returned(0), log;
            }
            if !truncated && left != 0 {
              return Exited, log;
            }
      }
      return Waiting, log;
    }
  }

  /** The loop over the filters. */
  method FilterAll(buf: array<byte>, n: nat, pid: nat, h: Handle, args: seq<FilterArg>, log0: seq<Call>)
    returns (r: Pass)
    requires n <= buf.Length
    modifies buf
    ensures r == AllPasses(old(buf[..]), n, pid, h, args, 0, log0, 0, false)
    ensures r.Through? ==> r.data == buf[..]
  {
    hide PassFrom;
    var log, left, done := log0, 0, false;
    for i := 0 to |args|
      invariant AllPasses(old(buf[..]), n, pid, h, args, 0, log0, 0, false) ==
                AllPasses(buf[..], n, pid, h, args, i, log, left, done)
    {
      var pass := FilterBuffer(buf, n, pid, h, i, args[i], log);
      match pass
      case Halt(_, _) => return pass;
      case Through(_, log1, left1, done1) => log, left, done := log1, left1, done || done1;
    }
    return Through(buf[..], log, left, done);
  }
}
