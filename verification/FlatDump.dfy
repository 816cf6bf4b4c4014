/**
 What a dump with one filter does, stated on the flat sequence of messages.

 `rtnl_dump_filter_nc` (libnetlink.c:325-335) is the only caller of the dump
 loop. The cut of the messages into datagrams plays no part.
 */
module FlatDump {
  import opened Bytes
  import opened BitOps
  import opened Netlink
  import opened DumpFilter

  datatype Item = Item(pid: nat, msg: message)

  function Tag(pid: nat, ms: seq<message>): (items: seq<Item>)
    ensures |items| == |ms|
  {
    if ms == [] then [] else [Item(pid, ms[0])] + Tag(pid, ms[1..])
  }

  /** All messages received, in order. */
  function Flatten(rs: seq<Receipt>): seq<Item> {
    if rs == [] then []
    else (if rs[0].Datagram? then Tag(rs[0].pid, Msgs(rs[0].data)) else []) + Flatten(rs[1..])
  }

  /** A receipt that neither ends the dump by itself nor leaves a remnant: a failure with errno
      4 (EINTR) or 11 (EAGAIN), or a datagram that is not empty and, unless it was truncated,
      holds nothing but whole padded messages. */
  predicate WellFormed(r: Receipt) {
    match r
    case RecvFailed(errno) => errno == 4 || errno == 11
    case Datagram(_, data, truncated) =>
      data != [] && (truncated || Remnant(data) == 0)
  }

  ghost predicate AllWellFormed(rs: seq<Receipt>) {
    forall i :: 0 <= i < |rs| ==> WellFormed(rs[i])
  }

  datatype FlatResult = Stopped(code: int, log: seq<Call>) | Open(log: seq<Call>)

  /** The dump on flat messages: the datagrams are gone. */
  function FlatRun(items: seq<Item>, h: Handle, arg: FilterArg, log: seq<Call>): FlatResult {
    if items == [] then Open(log)
    else
      var Item(pid, msg) := items[0];
      var m := Cleared(msg, arg.ncFlags);
      match Judge(m, pid, h)
      case Fail => Stopped(-1, log)
      case Finish => Stopped(0, log)
      case Skip => FlatRun(items[1..], h, arg, log)
      case Deliver =>
        var err := arg.run(log, Call(0, pid, m));
        var log1 := log + [Call(0, pid, m)];
        if err < 0 then Stopped(err, log1) else FlatRun(items[1..], h, arg, log1)
  }

  lemma {:induction false} FlatRunAppend(a: seq<Item>, b: seq<Item>, h: Handle, arg: FilterArg, log: seq<Call>)
    ensures var flat := FlatRun(a, h, arg, log);
            FlatRun(a + b, h, arg, log) == if flat.Stopped? then flat else FlatRun(b, h, arg, flat.log)
  {
    hide Judge, Cleared;
    if a == [] {
      assert a + b == b;
    } else {
      assert (a + b)[1..] == a[1..] + b;
      var m := Cleared(a[0].msg, arg.ncFlags);
      FlatRunAppend(a[1..], b, h, arg, log);
      FlatRunAppend(a[1..], b, h, arg, log + [Call(0, a[0].pid, m)]);
    }
  }

  lemma ClearHead(s: bytes, n: nat, cur: nat, nc: nat)
    requires OnMessage(s, n, cur)
    ensures MessageAt(ClearAt(s, n, cur, nc), n, cur) == Cleared(MessageAt(s, n, cur), nc)
  {
    var len := Get32(s, cur);
    var m0 := MessageAt(s, n, cur);
    Get16Within(s, cur, cur + len, 6);
    var flags := Put16(AndNot16(Get16(m0, 6), nc));
    hide Get16, Get32, Put16, AndNot16;
    assert Splice(s, cur + 6, flags)[cur..cur + len] == Splice(m0, 6, flags);
  }

  lemma ClearAtTail(s: bytes, n: nat, cur: nat, nc: nat, next: nat)
    requires OnMessage(s, n, cur) && cur + NLMSG_HDRLEN <= next <= n
    ensures ClearAt(s, n, cur, nc)[next..n] == s[next..n]
  {
    hide Get16, Get32, Put16, AndNot16;
  }

  ghost predicate Agrees(pass: Pass, flat: FlatResult, remnant: int) {
    match pass
    case Halt(code, log) => flat == Stopped(code, log)
    case Through(_, log, left, done) =>
      if done then flat == Stopped(0, log) else flat == Open(log) && left == remnant
  }

  lemma {:induction false} PassIsFlat(s: bytes, n: nat, cur: nat, pid: nat, h: Handle, arg: FilterArg, log: seq<Call>)
    requires cur <= n <= |s|
    ensures Agrees(PassFrom(s, n, cur, pid, h, 0, arg, log),
                   FlatRun(Tag(pid, Msgs(s[cur..n])), h, arg, log), Remnant(s[cur..n]))
    decreases n - cur
  {
    hide Msgs, Remnant, Judge, MessageAt, ClearAt, Cleared, FlatRun, Tag, PassFrom, Align4, Get32;
    if !OnMessage(s, n, cur) {
      NotOnMessage(s, n, cur);
      PassStop(s, n, cur, pid, h, arg, log);
      FlatNone(pid, h, arg, log);
    } else {
      var s1 := ClearAt(s, n, cur, arg.ncFlags);
      var m0 := MessageAt(s, n, cur);
      var m := MessageAt(s1, n, cur);
      var next := cur + Align4(|m|);
      PassStep(s, n, cur, pid, h, arg, log);
      ClearHead(s, n, cur, arg.ncFlags);
      WindowStep(s, n, cur);
      FlatCons(pid, m0, if next <= n then Msgs(s[next..n]) else [], h, arg, log);
      if next <= n {
        ClearAtTail(s, n, cur, arg.ncFlags, next);
        PassIsFlat(s1, n, next, pid, h, arg, log);
        PassIsFlat(s1, n, next, pid, h, arg, log + [Call(0, pid, m)]);
      } else {
        FlatNone(pid, h, arg, log);
        FlatNone(pid, h, arg, log + [Call(0, pid, m)]);
      }
    }
  }

  lemma PassStop(s: bytes, n: nat, cur: nat, pid: nat, h: Handle, arg: FilterArg, log: seq<Call>)
    requires n <= |s| && !OnMessage(s, n, cur)
    ensures PassFrom(s, n, cur, pid, h, 0, arg, log) == Through(s, log, n - cur, false)
  {
  }

  lemma PassStep(s: bytes, n: nat, cur: nat, pid: nat, h: Handle, arg: FilterArg, log: seq<Call>)
    requires OnMessage(s, n, cur)
    ensures var s1 := ClearAt(s, n, cur, arg.ncFlags);
      var m := MessageAt(s1, n, cur);
      var next := cur + Align4(|m|);
      var call := Call(0, pid, m);
      var log1 := log + [call];
      && cur + NLMSG_HDRLEN <= next
      && PassFrom(s, n, cur, pid, h, 0, arg, log) ==
         match Judge(m, pid, h)
         case Fail => Halt(-1, log)
         case Finish => Through(s1, log, n - cur, true)
         case Skip =>
           if next <= n then PassFrom(s1, n, next, pid, h, 0, arg, log) else Through(s1, log, n - next, false)
         case Deliver =>
           if arg.run(log, call) < 0 then Halt(arg.run(log, call), log1)
           else if next <= n then PassFrom(s1, n, next, pid, h, 0, arg, log1)
           else Through(s1, log1, n - next, false)
  {
    hide ClearAt, Judge, Align4, Get32;
  }

  lemma FlatNone(pid: nat, h: Handle, arg: FilterArg, log: seq<Call>)
    ensures FlatRun(Tag(pid, []), h, arg, log) == Open(log)
  {
  }

  lemma FlatCons(pid: nat, m0: message, rest: seq<message>, h: Handle, arg: FilterArg, log: seq<Call>)
    ensures var m := Cleared(m0, arg.ncFlags);
      var call := Call(0, pid, m);
      FlatRun(Tag(pid, [m0] + rest), h, arg, log) ==
      match Judge(m, pid, h)
      case Fail => Stopped(-1, log)
      case Finish => Stopped(0, log)
      case Skip => FlatRun(Tag(pid, rest), h, arg, log)
      case Deliver =>
        if arg.run(log, call) < 0 then Stopped(arg.run(log, call), log + [call])
        else FlatRun(Tag(pid, rest), h, arg, log + [call])
  {
    hide Judge, Cleared;
    assert ([m0] + rest)[1..] == rest;
    assert Tag(pid, [m0] + rest)[1..] == Tag(pid, rest);
  }

  function OutcomeOf(r: FlatResult): (Outcome, seq<Call>) {
    match r
    case Stopped(code, log) => (Returned(code), log)
    case Open(log) => (Waiting, log)
  }

  lemma OneDatagram(s: bytes, pid: nat, data: datagram, h: Handle, arg: FilterArg, log: seq<Call>)
    requires |s| == BUFFER_SIZE
    ensures Agrees(AllPasses(Splice(s, 0, data), |data|, pid, h, [arg], 0, log, 0, false),
                   FlatRun(Tag(pid, Msgs(data)), h, arg, log), Remnant(data))
  {
    hide PassFrom, FlatRun, Msgs, Remnant, Tag;
    var s0 := Splice(s, 0, data);
    SpliceParts(s, 0, data);
    PassIsFlat(s0, |data|, 0, pid, h, arg, log);
    match PassFrom(s0, |data|, 0, pid, h, 0, arg, log)
    case Halt(_, _) =>
    case Through(s1, log1, left, done) =>
      assert AllPasses(s1, |data|, pid, h, [arg], 1, log1, left, false || done) == Through(s1, log1, left, done);
  }

  /** What one well-formed receipt adds to a flat run. */
  function FlatOf(r: Receipt, h: Handle, arg: FilterArg, log: seq<Call>): FlatResult {
    if r.RecvFailed? then Open(log) else FlatRun(Tag(r.pid, Msgs(r.data)), h, arg, log)
  }

  lemma FlatHead(rs: seq<Receipt>, h: Handle, arg: FilterArg, log: seq<Call>)
    requires rs != []
    ensures var flat := FlatOf(rs[0], h, arg, log);
            FlatRun(Flatten(rs), h, arg, log) ==
            if flat.Stopped? then flat else FlatRun(Flatten(rs[1..]), h, arg, flat.log)
  {
    hide FlatRun, Msgs, Tag;
    var r := rs[0];
    if r.RecvFailed? {
      assert Flatten(rs) == Flatten(rs[1..]);
    } else {
      FlatRunAppend(Tag(r.pid, Msgs(r.data)), Flatten(rs[1..]), h, arg, log);
    }
  }

  /** The loop over one well-formed receipt; `s'` is the buffer after it. */
  lemma RunHead(s: bytes, rs: seq<Receipt>, h: Handle, arg: FilterArg, log: seq<Call>) returns (s': bytes)
    requires |s| == BUFFER_SIZE && rs != [] && WellFormed(rs[0])
    ensures |s'| == BUFFER_SIZE
    ensures var flat := FlatOf(rs[0], h, arg, log);
            Run(s, rs, h, [arg], log) ==
            if flat.Stopped? then (Returned(flat.code), flat.log) else Run(s', rs[1..], h, [arg], flat.log)
  {
    hide AllPasses, FlatRun, Msgs, Remnant, Tag;
    s' := s;
    var r := rs[0];
    if r.Datagram? {
      OneDatagram(s, r.pid, r.data, h, arg, log);
      var pass := AllPasses(Splice(s, 0, r.data), |r.data|, r.pid, h, [arg], 0, log, 0, false);
      if pass.Through? { s' := pass.data; }
    }
  }

  /** The dump loop with one filter is the flat run over all messages received. */
  lemma {:induction false} RunIsFlat(s: bytes, rs: seq<Receipt>, h: Handle, arg: FilterArg, log: seq<Call>)
    requires |s| == BUFFER_SIZE && AllWellFormed(rs)
    ensures Run(s, rs, h, [arg], log) == OutcomeOf(FlatRun(Flatten(rs), h, arg, log))
    decreases |rs|
  {
    if rs == [] {
      assert Flatten(rs) == [];
    } else {
      assert WellFormed(rs[0]) && AllWellFormed(rs[1..]);
      hide Run, FlatOf, FlatRun, AllWellFormed;
      FlatHead(rs, h, arg, log);
      var s' := RunHead(s, rs, h, arg, log);
      match FlatOf(rs[0], h, arg, log)
      case Stopped(_, _) =>
      case Open(log1) => RunIsFlat(s', rs[1..], h, arg, log1);
    }
  }

  /** The first receipt that is not well-formed ends the dump, unless a message before it has:
      any other failure and an empty datagram return -1, and over a remnant the program exits,
      unless a message of that datagram comes first. */
  lemma {:induction false} BadReceiptEnds(s: bytes, rs: seq<Receipt>, k: nat, h: Handle, arg: FilterArg, log: seq<Call>)
    requires |s| == BUFFER_SIZE && k < |rs| && AllWellFormed(rs[..k]) && !WellFormed(rs[k])
    ensures var flat := FlatRun(Flatten(rs[..k]), h, arg, log);
            Run(s, rs, h, [arg], log) ==
            if flat.Stopped? then (Returned(flat.code), flat.log) else EndedBy(rs[k], h, arg, flat.log)
    decreases k
  {
    if k == 0 {
      NothingRun(h, arg, log);
      BadReceipt(s, rs, h, arg, log);
      assert rs[..0] == [];
    } else {
      assert rs[..k][0] == rs[0] && rs[..k][1..] == rs[1..][..k - 1] && rs[1..][k - 1] == rs[k];
      assert WellFormed(rs[0]) && AllWellFormed(rs[1..][..k - 1]);
      hide Run, FlatOf, FlatRun, AllWellFormed, EndedBy;
      FlatHead(rs[..k], h, arg, log);
      var s' := RunHead(s, rs, h, arg, log);
      match FlatOf(rs[0], h, arg, log)
      case Stopped(_, _) =>
      case Open(log1) => BadReceiptEnds(s', rs[1..], k - 1, h, arg, log1);
    }
  }

  lemma BadReceipt(s: bytes, rs: seq<Receipt>, h: Handle, arg: FilterArg, log: seq<Call>)
    requires |s| == BUFFER_SIZE && rs != [] && !WellFormed(rs[0])
    ensures Run(s, rs, h, [arg], log) == EndedBy(rs[0], h, arg, log)
  {
    hide AllPasses, FlatRun, Msgs, Remnant, Tag;
    var r := rs[0];
    if r.Datagram? { OneDatagram(s, r.pid, r.data, h, arg, log); }
  }

  lemma NothingRun(h: Handle, arg: FilterArg, log: seq<Call>)
    ensures FlatRun(Flatten([]), h, arg, log) == Open(log)
  {
  }

  /** What the dump comes to at a receipt that is not well-formed. */
  function EndedBy(r: Receipt, h: Handle, arg: FilterArg, log: seq<Call>): (Outcome, seq<Call>) {
    if r.RecvFailed? || r.data == [] then (Returned(-1), log)
    else
      match FlatRun(Tag(r.pid, Msgs(r.data)), h, arg, log)
      case Stopped(code, log1) => (Returned(code), log1)
      case Open(log1) => (Exited, log1)
  }

  /** Any other cut of the same messages into datagrams gives the same run,
      whatever the buffer held before. */
  lemma CutsDoNotMatter(s: bytes, rs: seq<Receipt>, s': bytes, rs': seq<Receipt>, h: Handle, arg: FilterArg)
    requires |s| == |s'| == BUFFER_SIZE
    requires AllWellFormed(rs) && AllWellFormed(rs')
    requires Flatten(rs) == Flatten(rs')
    ensures Run(s, rs, h, [arg], []) == Run(s', rs', h, [arg], [])
  {
    RunIsFlat(s, rs, h, arg, []);
    RunIsFlat(s', rs', h, arg, []);
  }

  // ---- Which calls a dump makes -------------------------------------------

  /** The messages of this dump, from the kernel, with the flags cleared. */
  function Relevant(items: seq<Item>, h: Handle, nc: nat): seq<message> {
    if items == [] then []
    else
      var Item(pid, msg) := items[0];
      (if pid == 0 && MsgSeq(msg) == h.dump then [Cleared(msg, nc)] else []) + Relevant(items[1..], h, nc)
  }

  function Calls(ms: seq<message>): (calls: seq<Call>)
    ensures |calls| == |ms|
  {
    seq(|ms|, i requires 0 <= i < |ms| => Call(0, 0, ms[i]))
  }

  /** Its type is 2 (ERROR) or 3 (DONE). */
  predicate Ends(m: message) {
    (m[4] == 2 || m[4] == 3) && m[5] == 0
  }

  /** The `j`-th message ends the dump, given that the earlier ones were delivered. */
  predicate StopsAt(ms: seq<message>, j: nat, arg: FilterArg)
    requires j < |ms|
  {
    Ends(ms[j]) || arg.run(Calls(ms[..j]), Call(0, 0, ms[j])) < 0
  }

  /** Type 3, at least 20 bytes long, and a status whose sign bit is clear. */
  predicate GoodDone(m: message) {
    m[4] == 3 && m[5] == 0 && |m| >= 20 && m[19] < 0x80
  }

  lemma DoneBytes(m: message)
    ensures MsgType(m) == NLMSG_DONE <==> m[4] == 3 && m[5] == 0
    ensures MsgType(m) == NLMSG_ERROR <==> m[4] == 2 && m[5] == 0
    ensures DoneStatus(m) >= 0 <==> |m| >= 20 && m[19] < 0x80
  {
  }

  function StopCode(ms: seq<message>, j: nat, arg: FilterArg): int
    requires j < |ms|
  {
    if Ends(ms[j]) then (if GoodDone(ms[j]) then 0 else -1) else arg.run(Calls(ms[..j]), Call(0, 0, ms[j]))
  }

  /** From its `i`-th message on the dump gets to the `k`-th, with result `r`. */
  ghost predicate Reaches(ms: seq<message>, i: nat, k: nat, arg: FilterArg, r: FlatResult) {
    && i <= k <= |ms|
    && (forall j :: i <= j < k ==> !StopsAt(ms, j, arg))
    && (k == |ms| ==> r == Open(Calls(ms)))
    && (k < |ms| ==>
          && StopsAt(ms, k, arg)
          && r == Stopped(StopCode(ms, k, arg), Calls(if Ends(ms[k]) then ms[..k] else ms[..k + 1])))
  }

  /** The filter is called once on each message of the dump, in order, up to the
      first DONE, ERROR or negative result; the last one is called on too when it
      is its result that ends the dump. */
  lemma DumpDelivers(rs: seq<Receipt>, s: bytes, h: Handle, arg: FilterArg) returns (k: nat)
    requires !h.dumping && |s| == BUFFER_SIZE && AllWellFormed(rs)
    ensures var ms := Relevant(Flatten(rs), h, arg.ncFlags);
      && k <= |ms|
      && (forall j :: 0 <= j < k ==> !StopsAt(ms, j, arg))
      && (k == |ms| ==> Run(s, rs, h, [arg], []) == (Waiting, Calls(ms)))
      && (k < |ms| ==>
            && StopsAt(ms, k, arg)
            && Run(s, rs, h, [arg], []) ==
               (Returned(StopCode(ms, k, arg)), Calls(if Ends(ms[k]) then ms[..k] else ms[..k + 1])))
  {
    hide Run, FlatRun;
    RunIsFlat(s, rs, h, arg, []);
    k := FlatDelivers([], Flatten(rs), h, arg);
    assert [] + Relevant(Flatten(rs), h, arg.ncFlags) == Relevant(Flatten(rs), h, arg.ncFlags);
    assert Calls([]) == [];
  }

  lemma {:induction false} FlatDelivers(before: seq<message>, items: seq<Item>, h: Handle, arg: FilterArg)
    returns (k: nat)
    requires !h.dumping
    ensures Reaches(before + Relevant(items, h, arg.ncFlags), |before|, k, arg, FlatRun(items, h, arg, Calls(before)))
    decreases |items|
  {
    var ms := before + Relevant(items, h, arg.ncFlags);
    if items == [] {
      k := |before|;
      assert ms == before;
    } else {
      var Item(pid, msg) := items[0];
      var m := Cleared(msg, arg.ncFlags);
      DoneBytes(m);
      hide DoneStatus;
      ClearedHeader(msg, arg.ncFlags);
      if pid == 0 && MsgSeq(msg) == h.dump {
        DeliverOne(before, m, Relevant(items[1..], h, arg.ncFlags));
        if StopsAt(ms, |before|, arg) {
          k := |before|;
        } else {
          k := FlatDelivers(before + [m], items[1..], h, arg);
        }
      } else {
        assert Relevant(items, h, arg.ncFlags) == Relevant(items[1..], h, arg.ncFlags);
        k := FlatDelivers(before, items[1..], h, arg);
      }
    }
  }

  lemma DeliverOne(before: seq<message>, m: message, rest: seq<message>)
    ensures var ms := before + ([m] + rest);
      && ms == (before + [m]) + rest && ms[|before|] == m
      && ms[..|before|] == before && ms[..|before| + 1] == before + [m]
    ensures Calls(before + [m]) == Calls(before) + [Call(0, 0, m)]
  {
  }

  // ---- A dump into a file -----------------------------------------------------------

  /** With a dump file the filter is never called; the first DONE or ERROR alone ends the dump. */
  lemma SilentDump(rs: seq<Receipt>, s: bytes, h: Handle, arg: FilterArg) returns (k: nat)
    requires h.dumping && |s| == BUFFER_SIZE && AllWellFormed(rs)
    ensures var ms := Relevant(Flatten(rs), h, arg.ncFlags);
      && k <= |ms|
      && (forall j :: 0 <= j < k ==> !Ends(ms[j]))
      && (k == |ms| ==> Run(s, rs, h, [arg], []) == (Waiting, []))
      && (k < |ms| ==>
            && Ends(ms[k])
            && Run(s, rs, h, [arg], []) == (Returned(if GoodDone(ms[k]) then 0 else -1), []))
  {
    hide Run, FlatRun;
    RunIsFlat(s, rs, h, arg, []);
    k := FlatSilent(Flatten(rs), h, arg);
  }

  lemma {:induction false} FlatSilent(items: seq<Item>, h: Handle, arg: FilterArg) returns (k: nat)
    requires h.dumping
    ensures var ms := Relevant(items, h, arg.ncFlags);
      && k <= |ms|
      && (forall j :: 0 <= j < k ==> !Ends(ms[j]))
      && (k == |ms| ==> FlatRun(items, h, arg, []) == Open([]))
      && (k < |ms| ==>
            Ends(ms[k]) && FlatRun(items, h, arg, []) == Stopped(if GoodDone(ms[k]) then 0 else -1, []))
    decreases |items|
  {
    k := 0;
    if items != [] {
      var Item(pid, msg) := items[0];
      var m := Cleared(msg, arg.ncFlags);
      ClearedHeader(msg, arg.ncFlags);
      DoneBytes(m);
      hide DoneStatus, Cleared;
      if pid == 0 && MsgSeq(msg) == h.dump {
        var ms, rest := Relevant(items, h, arg.ncFlags), Relevant(items[1..], h, arg.ncFlags);
        assert ms == [m] + rest;
        if !Ends(m) {
          var j := FlatSilent(items[1..], h, arg);
          k := j + 1;
        }
      } else {
        assert Relevant(items, h, arg.ncFlags) == Relevant(items[1..], h, arg.ncFlags);
        k := FlatSilent(items[1..], h, arg);
      }
    }
  }
}
