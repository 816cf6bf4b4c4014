/**
 The queue of delete requests (ipneigh.c:158-176, 234-247).

 Accepted entries are copied into a bounded buffer, restamped as delete
 requests, and sent in batches when the next one does not fit.
 */
module FlushQueue {
  import opened Bytes
  import opened Netlink

  const RTM_DELNEIGH := 29
  const EADDRNOTAVAIL := 99

  /** `wire` holds whatever a `send` put out; `retired`, which the code does not keep,
      the batches whose space in the buffer was given up. */
  datatype Queue = Queue(
    buf: bytes, used: nat, limit: nat, flushed: nat, seqNo: nat, errno: int,
    retired: seq<bytes>, wire: seq<bytes>)
  {
    ghost predicate Valid() {
      used <= limit <= |buf| && seqNo < TWO_TO_THE_32
    }

    function Pending(): bytes
      requires used <= |buf|
    {
      buf[..used]
    }
  }

  /** `flush_update`. */
  function FlushUpdate(q: Queue, reply: Reply): (r: (Queue, bool))
    requires q.Valid()
    ensures r.0.Valid() && r.0.limit == q.limit
  {
    var (ok, errno) := SendResult(reply, q.errno);
    var q1 := q.(errno := errno, wire := q.wire + if reply.SendFailed? then [] else [q.Pending()]);
    if !ok && errno != EADDRNOTAVAIL then (q1, false)
    else (q1.(used := 0, retired := q.retired + [q.Pending()]), true)
  }

  /** An entry as it goes into the queue. */
  function Rewritten(m: message, seqNo: nat): (r: message)
    ensures |r| == |m|
  {
    Restamped(m, RTM_DELNEIGH, NLM_F_REQUEST, seqNo, Get32(m, 12))
  }

  function Append(q: Queue, m: message): (r: Queue)
    requires q.Valid() && Align4(q.used) + |m| <= q.limit
    ensures r.Valid() && r.limit == q.limit
  {
    var at, seqNo := Align4(q.used), (q.seqNo + 1) % TWO_TO_THE_32;
    q.(buf := Splice(q.buf, at, Rewritten(m, seqNo)), used := at + |m|, flushed := q.flushed + 1, seqNo := seqNo)
  }

  predicate Full(q: Queue, m: message) {
    Align4(q.used) + |m| > q.limit
  }

  /** One accepted entry; the flag says whether it was queued. */
  function Enqueue(q: Queue, m: message, reply: Reply): (r: (Queue, bool))
    requires q.Valid() && |m| <= q.limit
    ensures r.0.Valid() && r.0.limit == q.limit
  {
    if !Full(q, m) then (Append(q, m), true)
    else
      var (q1, ok) := FlushUpdate(q, reply);
      if ok then (Append(q1, m), true) else (q1, false)
  }

  // ---- Conservation ---------------------------------------------------------

  /** `queued`, restamped with consecutive sequence numbers after `first`. */
  function Stamped(queued: seq<message>, first: nat): (ms: seq<message>)
    ensures |ms| == |queued|
  {
    seq(|queued|, i requires 0 <= i < |queued| => Rewritten(queued[i], (first + 1 + i) % TWO_TO_THE_32))
  }

  /** All messages of some batches, by the kernel's walk over each. */
  function Unpacked(batches: seq<bytes>): seq<message> {
    if batches == [] then [] else Unpacked(batches[..|batches| - 1]) + Msgs(batches[|batches| - 1])
  }

  /** From `cur` on, the first `end` bytes are exactly these messages, each at an
      aligned offset. */
  ghost predicate Tiled(s: bytes, end: nat, cur: nat, ms: seq<message>)
    decreases |ms|
  {
    if ms == [] then cur == Align4(end) && end <= |s|
    else OnMessage(s, end, cur) && MessageAt(s, end, cur) == ms[0] && Tiled(s, end, cur + Align4(|ms[0]|), ms[1..])
  }

  lemma {:induction false} TiledMsgs(s: bytes, end: nat, cur: nat, ms: seq<message>)
    requires Tiled(s, end, cur, ms) && cur <= end
    ensures Msgs(s[cur..end]) == ms
    decreases |ms|
  {
    hide Msgs, OnMessage, MessageAt;
    if ms == [] {
      assert s[cur..end] == [];
      WalkStop([]);
    } else {
      WindowStep(s, end, cur);
      var next := cur + Align4(|ms[0]|);
      if next <= end {
        TiledMsgs(s, end, next, ms[1..]);
      } else {
        TiledPastEnd(s, end, next, ms[1..]);
      }
    }
  }

  lemma TiledPastEnd(s: bytes, end: nat, cur: nat, ms: seq<message>)
    requires Tiled(s, end, cur, ms) && cur > end
    ensures ms == []
  {
  }

  lemma {:induction false} TiledAppend(s: bytes, end: nat, cur: nat, ms: seq<message>, s': bytes, m: message, at: nat)
    requires Tiled(s, end, cur, ms) && at == Align4(end)
    requires |s'| == |s| && Same(s, s', cur, end) && Wrote(s', at, m)
    ensures Tiled(s', at + |m|, cur, ms + [m])
    decreases |ms|
  {
    hide Same, Wrote, OnMessage, MessageAt, Get32;
    if ms == [] {
      Align4Twice(end);
      assert cur == at;
      hide *;
      TiledOne(s', at, m);
      assert ms + [m] == [m];
    } else {
      var head, rest, next := ms[0], ms[1..], cur + Align4(|ms[0]|);
      WroteBounds(s', at, m);
      assert Tiled(s, end, next, rest);
      TiledHead(s, end, cur, head, s', at + |m|);
      assert ms + [m] == [head] + (rest + [m]);
      hide *;
      TiledAppend(s, end, next, rest, s', m, at);
      TiledCons(s', at + |m|, cur, head, rest + [m]);
    }
  }

  lemma WroteBounds(s: bytes, at: nat, m: bytes)
    requires Wrote(s, at, m)
    ensures at + |m| <= |s|
  {
  }

  lemma TiledCons(s: bytes, end: nat, cur: nat, m: message, rest: seq<message>)
    requires OnMessage(s, end, cur) && MessageAt(s, end, cur) == m
    requires Tiled(s, end, cur + Align4(|m|), rest)
    ensures Tiled(s, end, cur, [m] + rest)
  {
    hide OnMessage, MessageAt, Align4;
    assert ([m] + rest)[1..] == rest;
  }

  lemma TiledOne(s: bytes, at: nat, m: message)
    requires at == Align4(at) && Wrote(s, at, m)
    ensures Tiled(s, at + |m|, at, [m])
  {
    OnWritten(s, at, m);
    Align4Sum(at, |m|);
    hide Align4, OnMessage, MessageAt, Wrote;
    assert [m][1..] == [];
    assert Tiled(s, at + |m|, at + Align4(|m|), []);
  }

  lemma OnWritten(s: bytes, at: nat, m: message)
    requires Wrote(s, at, m)
    ensures at + |m| <= |s| && OnMessage(s, at + |m|, at) && MessageAt(s, at + |m|, at) == m
  {
    assert s[at + 0] == m[0] && s[at + 1] == m[1] && s[at + 2] == m[2] && s[at + 3] == m[3];
    assert Get32(s, at) == Get32(m, 0);
    hide Get32;
    assert s[at..at + |m|] == m;
  }

  lemma Align4Sum(at: nat, n: nat)
    requires at == Align4(at)
    ensures at + Align4(n) == Align4(at + n)
  {
  }

  lemma TiledHead(s: bytes, end: nat, cur: nat, m: message, s': bytes, end': nat)
    requires OnMessage(s, end, cur) && MessageAt(s, end, cur) == m && end <= end' <= |s'| && Same(s, s', cur, end)
    ensures OnMessage(s', end', cur) && MessageAt(s', end', cur) == m
    ensures Same(s, s', cur + Align4(|m|), end)
  {
  }

  /** The batches given up and the bytes still pending are, read back, exactly the
      entries queued so far: in order, each once, restamped, and counted. */
  ghost predicate Conserves(q: Queue, queued: seq<message>, first: nat) {
    && q.Valid()
    && Tiled(q.buf, q.used, 0, Msgs(q.Pending()))
    && Unpacked(q.retired) + Msgs(q.Pending()) == Stamped(queued, first)
    && q.flushed == |queued|
    && q.seqNo == (first + |queued|) % TWO_TO_THE_32
  }

  lemma EmptyConserves(q: Queue)
    requires q.Valid() && q.used == 0 && q.flushed == 0 && q.retired == []
    ensures Conserves(q, [], q.seqNo)
  {
    assert q.Pending() == [];
    WalkStop([]);
    assert Align4(0) == 0;
  }

  /** A successful flush moves the pending entries to the batches given up; a
      failed one changes no entry. */
  lemma FlushKeeps(q: Queue, reply: Reply, queued: seq<message>, first: nat)
    requires Conserves(q, queued, first)
    ensures var (q', ok) := FlushUpdate(q, reply);
      && Conserves(q', queued, first)
      && q'.buf == q.buf && q'.flushed == q.flushed && q'.seqNo == q.seqNo && q'.limit == q.limit
      && (if ok then q'.used == 0 && q'.retired == q.retired + [q.Pending()]
          else q'.used == q.used && q'.retired == q.retired)
  {
    hide Msgs, Stamped, SendResult;
    var r := FlushUpdate(q, reply);
    if r.1 {
      assert r.0.Pending() == [];
      WalkStop([]);
      assert Align4(0) == 0;
      UnpackedSnoc(q.retired, q.Pending());
      assert Unpacked(r.0.retired) + [] == Unpacked(r.0.retired);
    }
  }

  lemma UnpackedSnoc(batches: seq<bytes>, b: bytes)
    ensures Unpacked(batches + [b]) == Unpacked(batches) + Msgs(b)
  {
    assert (batches + [b])[..|batches|] == batches;
  }

  lemma StampedSnoc(queued: seq<message>, m: message, first: nat)
    ensures Stamped(queued + [m], first) ==
              Stamped(queued, first) + [Rewritten(m, (first + 1 + |queued|) % TWO_TO_THE_32)]
  {
    hide Rewritten;
  }

  lemma NextSeqNo(first: nat, n: nat)
    ensures ((first + n) % TWO_TO_THE_32 + 1) % TWO_TO_THE_32 == (first + 1 + n) % TWO_TO_THE_32
  {
  }

  lemma AppendWrites(s: bytes, at: nat, m: bytes)
    requires at + |m| <= |s|
    ensures Wrote(Splice(s, at, m), at, m)
    ensures forall end: nat {:trigger Same(s, Splice(s, at, m), 0, end)} :: end <= at ==>
              Same(s, Splice(s, at, m), 0, end)
  {
    SpliceIndex(s, at, m);
  }

  lemma AppendKeeps(q: Queue, m: message, queued: seq<message>, first: nat)
    requires Conserves(q, queued, first) && !Full(q, m)
    ensures Conserves(Append(q, m), queued + [m], first)
  {
    hide Rewritten, Msgs, Stamped, Align4, Tiled, Splice, Unpacked, Append;
    var q', at, seqNo := Append(q, m), Align4(q.used), (first + 1 + |queued|) % TWO_TO_THE_32;
    var m', pending := Rewritten(m, seqNo), Msgs(q.Pending());
    NextSeqNo(first, |queued|);
    AppendShape(q, m, seqNo);
    AppendTiles(q.buf, q.used, at, pending, m');
    AppendStamps(Unpacked(q.retired), pending, queued, m, first);
    assert |queued + [m]| == |queued| + 1;
    ConservesElim(q, queued, first);
    hide *;
    ConservesIntro(q', pending + [m'], queued + [m], first);
  }

  lemma ConservesElim(q: Queue, queued: seq<message>, first: nat)
    requires Conserves(q, queued, first)
    ensures q.flushed == |queued|
  {
  }

  lemma ConservesIntro(q: Queue, pending: seq<message>, queued: seq<message>, first: nat)
    requires q.Valid() && Msgs(q.Pending()) == pending && Tiled(q.buf, q.used, 0, pending)
    requires Unpacked(q.retired) + pending == Stamped(queued, first)
    requires q.flushed == |queued| && q.seqNo == (first + |queued|) % TWO_TO_THE_32
    ensures Conserves(q, queued, first)
  {
  }

  lemma AppendShape(q: Queue, m: message, seqNo: nat)
    requires q.Valid() && !Full(q, m) && seqNo == (q.seqNo + 1) % TWO_TO_THE_32
    ensures var q', at := Append(q, m), Align4(q.used);
      && q'.buf == Splice(q.buf, at, Rewritten(m, seqNo)) && q'.used == at + |m|
      && q'.Valid() && q'.Pending() == q'.buf[..at + |m|]
      && q'.flushed == q.flushed + 1 && q'.seqNo == seqNo && q'.retired == q.retired
  {
  }

  lemma AppendStamps(sent: seq<message>, pending: seq<message>, queued: seq<message>, m: message, first: nat)
    requires sent + pending == Stamped(queued, first)
    ensures sent + (pending + [Rewritten(m, (first + 1 + |queued|) % TWO_TO_THE_32)]) == Stamped(queued + [m], first)
  {
    StampedSnoc(queued, m, first);
    var m' := Rewritten(m, (first + 1 + |queued|) % TWO_TO_THE_32);
    hide Rewritten, Stamped;
    assert sent + (pending + [m']) == (sent + pending) + [m'];
  }

  lemma AppendTiles(s: bytes, used: nat, at: nat, pending: seq<message>, m: message)
    requires Tiled(s, used, 0, pending) && at == Align4(used) && at + |m| <= |s|
    ensures var s' := Splice(s, at, m);
      Tiled(s', at + |m|, 0, pending + [m]) && Msgs(s'[..at + |m|]) == pending + [m]
  {
    var s' := Splice(s, at, m);
    AppendWrites(s, at, m);
    assert s'[0..at + |m|] == s'[..at + |m|];
    assert Same(s, s', 0, used);
    hide *;
    TiledAppend(s, used, 0, pending, s', m, at);
    TiledMsgs(s', at + |m|, 0, pending + [m]);
  }

  lemma EnqueueKeeps(q: Queue, m: message, reply: Reply, queued: seq<message>, first: nat)
    requires Conserves(q, queued, first) && |m| <= q.limit
    ensures var (q', ok) := Enqueue(q, m, reply);
      Conserves(q', if ok then queued + [m] else queued, first) && q'.limit == q.limit
  {
    if !Full(q, m) {
      AppendKeeps(q, m, queued, first);
    } else {
      FlushKeeps(q, reply, queued, first);
      var (q1, ok) := FlushUpdate(q, reply);
      if ok {
        AppendKeeps(q1, m, queued, first);
      }
    }
  }

  // ---- Whole runs -----------------------------------------------------------

  datatype Step = Step(entry: message, reply: Reply)

  ghost predicate AllFit(steps: seq<Step>, limit: nat) {
    forall i :: 0 <= i < |steps| ==> |steps[i].entry| <= limit
  }

  /** The queue after a run, and the entries it took, added to those `before`. */
  ghost function RunQueue(q: Queue, before: seq<message>, steps: seq<Step>): (r: (Queue, seq<message>))
    requires q.Valid() && AllFit(steps, q.limit)
    decreases |steps|
  {
    if steps == [] then (q, before)
    else
      var (q1, ok) := Enqueue(q, steps[0].entry, steps[0].reply);
      RunQueue(q1, if ok then before + [steps[0].entry] else before, steps[1..])
  }

  lemma {:induction false} RunKeeps(q: Queue, queued: seq<message>, steps: seq<Step>, first: nat)
    requires Conserves(q, queued, first) && AllFit(steps, q.limit)
    ensures Conserves(RunQueue(q, queued, steps).0, RunQueue(q, queued, steps).1, first)
    decreases |steps|
  {
    if steps != [] {
      var m, reply, rest := steps[0].entry, steps[0].reply, steps[1..];
      EnqueueKeeps(q, m, reply, queued, first);
      var (q1, ok) := Enqueue(q, m, reply);
      assert AllFit(rest, q1.limit);
      hide Conserves, Enqueue, AllFit;
      RunKeeps(q1, if ok then queued + [m] else queued, rest, first);
    }
  }

  // ---- What goes out ----------------------------------------------------------

  /** The replies after which a batch is neither lost nor sent and kept: the `send` does not
      fail with 99 (EADDRNOTAVAIL), the `recv` has nothing (11, EAGAIN) or fails with 99, the
      answer has no error or a first one that leaves `errno` at 99. */
  ghost predicate CleanReply(reply: Reply, errno: int) {
    match reply
    case SendFailed(e) => e != 99
    case NothingRead(e) => e == 11 || e == 99
    case Answered(data) =>
      var ms := Msgs(data);
      forall k: nat :: FirstError(ms, k) ==> ErrnoAfter(ms[k], errno) == 99
  }

  lemma AnswerIsCleanIff(ms: seq<message>, errno: int)
    ensures Answer(ms, errno).0 || Answer(ms, errno).1 == EADDRNOTAVAIL <==>
            forall k: nat :: FirstError(ms, k) ==> ErrnoAfter(ms[k], errno) == 99
  {
    AnswerIsSuccess(ms, errno);
    hide Answer, ErrnoAfter, IsError;
    if !Answer(ms, errno).0 {
      var k := FirstErrorOf(ms, 0);
      FirstErrorDecides(ms, errno, k);
      assert forall j: nat :: FirstError(ms, j) ==> j == k;
    }
  }

  lemma FirstErrorOf(ms: seq<message>, from: nat) returns (k: nat)
    requires from <= |ms| && forall i :: 0 <= i < from ==> !IsError(ms[i])
    requires exists i :: 0 <= i < |ms| && IsError(ms[i])
    ensures FirstError(ms, k)
    decreases |ms| - from
  {
    if IsError(ms[from]) { k := from; } else { k := FirstErrorOf(ms, from + 1); }
  }

  /** When the batches sent so far are those given up, they still are after a flush exactly
      when its reply is clean. */
  lemma FlushIsCleanIff(q: Queue, reply: Reply)
    requires q.Valid() && q.wire == q.retired
    ensures var q' := FlushUpdate(q, reply).0; q'.wire == q'.retired <==> CleanReply(reply, q.errno)
  {
    if reply.Answered? { AnswerIsCleanIff(Msgs(reply.data), q.errno); }
    var q' := FlushUpdate(q, reply).0;
    var wire, p := q.wire, q.Pending();
    hide Answer, Msgs, ErrnoAfter;
    assert |wire + [p]| == |wire| + 1 && |wire + []| == |wire| && wire + [] == wire;
    assert |q'.wire| == |wire| + (if reply.SendFailed? then 0 else 1);
  }

  /** The other replies. A `send` that fails with EADDRNOTAVAIL loses the batch: it was not
      sent, and its space is given up. Any other kind leaves the batch on the wire and pending
      at once, although the flush reports a failure. */
  lemma UncleanFlush(q: Queue, reply: Reply)
    requires q.Valid() && !CleanReply(reply, q.errno)
    ensures var (q', ok) := FlushUpdate(q, reply);
      if reply.SendFailed? then ok && q'.wire == q.wire && q'.Pending() == []
      else !ok && q'.wire == q.wire + [q.Pending()] && q'.Pending() == q.Pending()
  {
    if reply.Answered? { AnswerIsCleanIff(Msgs(reply.data), q.errno); }
    hide Answer, Msgs, ErrnoAfter;
    assert q.wire + [] == q.wire;
  }

  /** An NLMSG_ERROR of 36 bytes with the given code. */
  function ErrorReply(code: int): (data: bytes)
    requires -0x8000_0000 <= code <= 0
    ensures |data| == 36
  {
    [36, 0, 0, 0, 2, 0, 0, 0] + seq(8, _ => 0) + Put32(if code < 0 then code + TWO_TO_THE_32 else 0) +
    seq(16, _ => 0)
  }

  lemma ErrorReplyIsError(code: int, errno: int)
    requires -0x8000_0000 <= code <= 0
    ensures var ms := Msgs(ErrorReply(code)); FirstError(ms, 0) && ErrnoAfter(ms[0], errno) == -code
  {
    var d := ErrorReply(code);
    ErrorReplyFields(code);
    hide ErrorReply, Msgs, Get32, Get16;
    var m := WalkHead(d);
    assert m == d;
    ErrorType(m);
    ErrorBytes(m, errno);
  }

  lemma ErrorReplyFields(code: int)
    requires -0x8000_0000 <= code <= 0
    ensures var d := ErrorReply(code);
      MsgOk(d) && Get32(d, 0) == 36 && Get16(d, 4) == NLMSG_ERROR && Signed32(Get32(d, NLMSG_HDRLEN)) == code
  {
    var d, w := ErrorReply(code), Put32(if code < 0 then code + TWO_TO_THE_32 else 0);
    hide Put32;
    assert d[16] == w[0] && d[17] == w[1] && d[18] == w[2] && d[19] == w[3];
    assert Get32(d, 16) == Get32(w, 0);
    assert d[0] == 36 && d[1] == 0 && d[2] == 0 && d[3] == 0 && d[4] == NLMSG_ERROR && d[5] == 0;
  }

  /** Inputs of both kinds. After an answer with any error code but that of EADDRNOTAVAIL, an
      acknowledgement's 0 included, the next flush sends the same batch again. */
  lemma BatchLostOrRepeated(q: Queue, code: int)
    requires q.Valid() && -0x8000_0000 <= code <= 0 && code != -99
    ensures var lost := FlushUpdate(q, SendFailed(99)).0;
      lost.wire == q.wire && lost.Pending() == []
    ensures var failed := FlushUpdate(q, Answered(ErrorReply(code))).0;
      var again := FlushUpdate(failed, NothingRead(11)).0;
      failed.Pending() == q.Pending() && again.wire == q.wire + [q.Pending(), q.Pending()]
  {
    ErrorReplyIsError(code, q.errno);
    var reply := Answered(ErrorReply(code));
    assert !CleanReply(reply, q.errno);
    UncleanFlush(q, reply);
    UncleanFlush(q, SendFailed(99));
    var failed := FlushUpdate(q, reply).0;
    hide Answer, Msgs, ErrnoAfter, ErrorReply, CleanReply;
    assert q.wire + [q.Pending()] + [q.Pending()] == q.wire + [q.Pending(), q.Pending()];
  }

  // ---- Whole runs on the wire ----------------------------------------------------

  /** The entry, after the padding of what is queued, does not fit. */
  predicate Overflows(q: Queue, m: message) {
    (q.used + 3) / 4 * 4 + |m| > q.limit
  }

  /** Every flush of the run has a clean reply. */
  ghost predicate CleanRun(q: Queue, steps: seq<Step>)
    requires q.Valid() && AllFit(steps, q.limit)
    decreases |steps|
  {
    steps == [] ||
    (&& (Overflows(q, steps[0].entry) ==> CleanReply(steps[0].reply, q.errno))
     && CleanRun(Enqueue(q, steps[0].entry, steps[0].reply).0, steps[1..]))
  }

  /** The batches sent and the bytes still pending, read back, are the entries taken so far: each
      once, in order, as delete requests numbered consecutively. */
  ghost predicate SentOnce(q: Queue, taken: seq<message>, first: nat) {
    q.Valid() && AreDeletes(Unpacked(q.wire) + Msgs(q.Pending()), taken, first)
  }

  /** That holds at every point of the run. */
  ghost predicate SentOnceThroughout(q: Queue, taken: seq<message>, steps: seq<Step>, first: nat)
    requires q.Valid() && AllFit(steps, q.limit)
    decreases |steps|
  {
    && SentOnce(q, taken, first)
    && (steps != [] ==>
          var (q1, ok) := Enqueue(q, steps[0].entry, steps[0].reply);
          SentOnceThroughout(q1, if ok then taken + [steps[0].entry] else taken, steps[1..], first))
  }

  lemma ConservedIsSentOnce(q: Queue, queued: seq<message>, first: nat)
    requires Conserves(q, queued, first) && q.wire == q.retired
    ensures SentOnce(q, queued, first)
  {
    hide Msgs, Unpacked, Stamped, Tiled, AreDeletes;
    StampedAreDeletes(queued, first);
  }

  lemma PendingMessage(q: Queue, queued: seq<message>, first: nat)
    requires Conserves(q, queued, first) && q.used > 0
    ensures |Msgs(q.Pending())| > 0
  {
    hide Msgs, Unpacked, Stamped;
  }

  /** When a full queue is flushed, the messages sent and those given up stay equally many
      exactly when the reply is clean. */
  lemma FlushCounts(q: Queue, m: message, reply: Reply)
    requires q.Valid() && |m| <= q.limit && q.wire == q.retired && |Msgs(q.Pending())| > 0 && Full(q, m)
    ensures var q' := Enqueue(q, m, reply).0;
      |Unpacked(q'.wire)| == |Unpacked(q'.retired)| <==> CleanReply(reply, q.errno)
    ensures var q' := Enqueue(q, m, reply).0; q'.wire == q'.retired <==> CleanReply(reply, q.errno)
  {
    FlushIsCleanIff(q, reply);
    if !CleanReply(reply, q.errno) { UncleanFlush(q, reply); }
    UnpackedSnoc(q.wire, q.Pending());
    FlushLogs(q, reply);
    hide FlushUpdate, CleanReply, Rewritten, Splice, Unpacked, Msgs;
  }

  lemma FlushLogs(q: Queue, reply: Reply)
    requires q.Valid()
    ensures var (q', ok) := FlushUpdate(q, reply);
      && q'.retired == (if ok then q.retired + [q.Pending()] else q.retired)
      && q'.wire == (if reply.SendFailed? then q.wire else q.wire + [q.Pending()])
  {
    hide SendResult;
    assert q.wire + [] == q.wire;
  }

  /** One more entry: from a queue that has sent everything once, it still has exactly when the
      flush, if there was one, had a clean reply. */
  lemma StillSentOnceIff(q: Queue, m: message, reply: Reply, queued: seq<message>, first: nat)
    requires Conserves(q, queued, first) && |m| <= q.limit && q.wire == q.retired
    ensures var (q', ok) := Enqueue(q, m, reply);
      && (SentOnce(q', if ok then queued + [m] else queued, first) <==>
            (Overflows(q, m) ==> CleanReply(reply, q.errno)))
      && (q'.wire == q'.retired <==> (Overflows(q, m) ==> CleanReply(reply, q.errno)))
  {
    EnqueueKeeps(q, m, reply, queued, first);
    FullMeans(q, m);
    var (q', ok) := Enqueue(q, m, reply);
    var queued' := if ok then queued + [m] else queued;
    if Full(q, m) {
      FullHasPending(q, m, queued, first);
      FlushCounts(q, m, reply);
    } else {
      NotFull(q, m, reply);
    }
    hide Enqueue, CleanReply, Full, Overflows, Unpacked, Msgs, Tiled, Stamped;
    assert |Unpacked(q'.retired)| + |Msgs(q'.Pending())| == |queued'|;
    hide Conserves;
    if q'.wire == q'.retired { ConservedIsSentOnce(q', queued', first); }
  }

  lemma FullHasPending(q: Queue, m: message, queued: seq<message>, first: nat)
    requires Conserves(q, queued, first) && |m| <= q.limit && Full(q, m)
    ensures |Msgs(q.Pending())| > 0
  {
    assert Align4(0) == 0;
    PendingMessage(q, queued, first);
    hide Conserves, Msgs;
  }

  lemma FullMeans(q: Queue, m: message)
    ensures Full(q, m) <==> Overflows(q, m)
  {
  }

  lemma NotFull(q: Queue, m: message, reply: Reply)
    requires q.Valid() && |m| <= q.limit && !Full(q, m)
    ensures var q' := Enqueue(q, m, reply).0; q'.wire == q.wire && q'.retired == q.retired
  {
    hide Rewritten, Splice;
  }

  /** Over any run: everything taken is sent or pending exactly once all along if and only if
      every flush has a clean reply. */
  lemma {:induction false} SentOnceThroughoutIff(q: Queue, queued: seq<message>, steps: seq<Step>, first: nat)
    requires Conserves(q, queued, first) && AllFit(steps, q.limit) && q.wire == q.retired
    ensures SentOnceThroughout(q, queued, steps, first) <==> CleanRun(q, steps)
    decreases |steps|
  {
    ConservedIsSentOnce(q, queued, first);
    if steps != [] {
      var m, reply, rest := steps[0].entry, steps[0].reply, steps[1..];
      StillSentOnceIff(q, m, reply, queued, first);
      EnqueueKeeps(q, m, reply, queued, first);
      var (q1, ok) := Enqueue(q, m, reply);
      assert AllFit(rest, q1.limit);
      var queued1 := if ok then queued + [m] else queued;
      hide Enqueue, CleanReply, Overflows, AllFit, Conserves, SentOnce;
      if q1.wire == q1.retired {
        SentOnceThroughoutIff(q1, queued1, rest, first);
      } else {
        assert !SentOnce(q1, queued1, first);
      }
    }
  }

  lemma {:induction false} CleanToTheEnd(q: Queue, queued: seq<message>, steps: seq<Step>, first: nat)
    requires Conserves(q, queued, first) && AllFit(steps, q.limit)
    requires SentOnceThroughout(q, queued, steps, first)
    ensures var (q', taken) := RunQueue(q, queued, steps); SentOnce(q', taken, first)
    decreases |steps|
  {
    if steps != [] {
      var m, reply, rest := steps[0].entry, steps[0].reply, steps[1..];
      EnqueueKeeps(q, m, reply, queued, first);
      var (q1, ok) := Enqueue(q, m, reply);
      assert AllFit(rest, q1.limit);
      hide Enqueue, AllFit, Conserves, SentOnce;
      CleanToTheEnd(q1, if ok then queued + [m] else queued, rest, first);
    }
  }

  /** Conservation over a whole run from an empty queue. The fill mark stays within the buffer,
      `flushed` counts the entries taken, and the batches given up plus the pending bytes are
      those entries, as delete requests numbered consecutively. The batches that went out plus
      the pending bytes are so at every point exactly when every flush has a clean reply, and
      then at the end. */
  lemma QueueConservation(q: Queue, steps: seq<Step>)
    requires q.Valid() && q.used == 0 && q.flushed == 0 && q.retired == q.wire == []
    requires AllFit(steps, q.limit)
    ensures var (q', taken) := RunQueue(q, [], steps);
      && q'.used <= q'.limit <= |q'.buf| && q'.flushed == |taken|
      && AreDeletes(Unpacked(q'.retired) + Msgs(q'.Pending()), taken, q.seqNo)
      && (SentOnceThroughout(q, [], steps, q.seqNo) <==> CleanRun(q, steps))
      && (CleanRun(q, steps) ==> SentOnce(q', taken, q.seqNo))
  {
    EmptyConserves(q);
    hide RunQueue, Tiled, Msgs, Unpacked, Stamped, AreDeletes, CleanRun, SentOnceThroughout, SentOnce, AllFit;
    SentOnceThroughoutIff(q, [], steps, q.seqNo);
    RunKeeps(q, [], steps, q.seqNo);
    StampedAreDeletes(RunQueue(q, [], steps).1, q.seqNo);
    if CleanRun(q, steps) { CleanToTheEnd(q, [], steps, q.seqNo); }
  }

  /** Each entry once, in order, numbered consecutively after `first`. */
  ghost predicate AreDeletes(ds: seq<message>, ms: seq<message>, first: nat) {
    |ds| == |ms| && forall i :: 0 <= i < |ds| ==> IsDelete(ds[i], ms[i], (first + 1 + i) % TWO_TO_THE_32)
  }

  /** `d` asks for the deletion of the entry `m`: type 29 (RTM_DELNEIGH), flags 1 (REQUEST). */
  predicate IsDelete(d: message, m: message, seqNo: nat) {
    && |d| == |m| && d[4..8] == [29, 0, 1, 0] && MsgSeq(d) == seqNo
    && d[12..] == m[12..]
  }

  lemma StampedAreDeletes(queued: seq<message>, first: nat)
    ensures AreDeletes(Stamped(queued, first), queued, first)
  {
    hide IsDelete, Rewritten;
    forall i | 0 <= i < |queued|
      ensures IsDelete(Stamped(queued, first)[i], queued[i], (first + 1 + i) % TWO_TO_THE_32)
    {
      RewrittenHeader(queued[i], (first + 1 + i) % TWO_TO_THE_32);
    }
  }

  lemma RewrittenHeader(m: message, seqNo: nat)
    requires seqNo < TWO_TO_THE_32
    ensures IsDelete(Rewritten(m, seqNo), m, seqNo)
  {
    RestampedHeader(m, RTM_DELNEIGH, NLM_F_REQUEST, seqNo, Get32(m, 12));
    var r := Rewritten(m, seqNo);
    PutGet32(m, 12);
    hide Put16, Put32, Get32;
    assert r[12..] == m[12..];
  }
}
