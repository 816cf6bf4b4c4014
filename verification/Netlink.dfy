/**
 Netlink messages inside a byte buffer (libnetlink.c).

 The kernel macros are defined here with a 16-byte header, 4-byte alignment and
 a signed remaining length, as in section 2.3.2 of RFC 3549.
 */
module Netlink {
  import opened Bytes

  const NLMSG_HDRLEN := 16
  const NLMSG_ERROR := 2
  const NLMSG_DONE := 3
  const NLMSGERR_SIZE := 20

  const NLM_F_REQUEST := 0x001

  const EAGAIN := 11

  /** NLMSG_OK on the `d` bytes that remain. */
  predicate MsgOk(d: bytes) {
    |d| >= NLMSG_HDRLEN && NLMSG_HDRLEN <= Get32(d, 0) <= |d|
  }

  /** A whole message: its length field is its size. */
  predicate IsMsg(m: bytes) {
    |m| >= NLMSG_HDRLEN && Get32(m, 0) == |m|
  }

  type message = m: bytes | IsMsg(m)
    witness [16, 0, 0, 0, 0, 0, 0, 0, 0, 0, 0, 0, 0, 0, 0, 0]

  function MsgType(m: message): nat {
    Get16(m, 4)
  }

  function MsgFlags(m: message): nat {
    Get16(m, 6)
  }

  function MsgSeq(m: message): nat {
    Get32(m, 8)
  }

  /** Where the fields of a header lie, each with its low byte first. */
  lemma HeaderLayout(m: message)
    ensures |m| == m[0] as int + 0x100 * m[1] as int + 0x1_0000 * m[2] as int + 0x100_0000 * m[3] as int
    ensures MsgType(m) == m[4] as int + 0x100 * m[5] as int && MsgFlags(m) == m[6] as int + 0x100 * m[7] as int
    ensures MsgSeq(m) == m[8] as int + 0x100 * m[9] as int + 0x1_0000 * m[10] as int + 0x100_0000 * m[11] as int
  {
  }

  /** `m` with its type, flags, sequence number and port rewritten. */
  function Restamped(m: message, type_: nat, flags: nat, seqNo: nat, pid: nat): (r: message)
    ensures |r| == |m|
  {
    var r := m[..4] + Put16(type_) + Put16(flags) + Put32(seqNo) + Put32(pid) + m[16..];
    Get32Within(r, 0, 4, 0);
    Get32Within(m, 0, 4, 0);
    assert r[0..4] == m[0..4];
    r
  }

  lemma RestampedHeader(m: message, type_: nat, flags: nat, seqNo: nat, pid: nat)
    ensures var r := Restamped(m, type_, flags, seqNo, pid);
      && MsgType(r) == type_ % TWO_TO_THE_16 && MsgFlags(r) == flags % TWO_TO_THE_16
      && MsgSeq(r) == seqNo % TWO_TO_THE_32 && Get32(r, 12) == pid % TWO_TO_THE_32
      && r[16..] == m[16..]
  {
    var r := Restamped(m, type_, flags, seqNo, pid);
    hide Put16, Put32, Get32, Get16;
    assert r[4..6] == Put16(type_) && r[6..8] == Put16(flags);
    assert r[8..12] == Put32(seqNo) && r[12..16] == Put32(pid);
    Get16Within(r, 4, 6, 0);
    Get16Within(r, 6, 8, 0);
    Get32Within(r, 8, 12, 0);
    Get32Within(r, 12, 16, 0);
  }

  /** The messages that the NLMSG_OK / NLMSG_NEXT walk visits in `d`. */
  function Msgs(d: bytes): (ms: seq<message>)
    decreases |d|
  {
    if !MsgOk(d) then []
    else
      var len := Get32(d, 0);
      Get32Within(d, 0, len, 0);
      [d[..len]] + if Align4(len) <= |d| then Msgs(d[Align4(len)..]) else []
  }

  /** The length that is left when the walk over `d` stops; negative when the
      last message lacks its padding. */
  function Remnant(d: bytes): (r: int)
    ensures r <= |d|
    decreases |d|
  {
    if !MsgOk(d) then |d|
    else
      var a := Align4(Get32(d, 0));
      if a <= |d| then Remnant(d[a..]) else |d| - a
  }

  /** The bytes a well-formed message takes up in a datagram. */
  predicate Padded(m: message, p: bytes) {
    |p| == Align4(|m|) && p[..|m|] == m
  }

  /** Putting a padded message in front puts it in front of the walk. */
  lemma WalkCons(m: message, p: bytes, d: bytes)
    requires Padded(m, p)
    ensures Msgs(p + d) == [m] + Msgs(d)
    ensures Remnant(p + d) == Remnant(d)
  {
    var s := p + d;
    Get32Within(s, 0, |m|, 0);
    assert s[..|m|] == m;
    assert s[Align4(|m|)..] == d;
  }

  /** A walk that leaves no remnant goes on into whatever is appended. */
  lemma {:induction false} WalkAppend(d: bytes, e: bytes)
    requires Remnant(d) == 0
    ensures Msgs(d + e) == Msgs(d) + Msgs(e)
    ensures Remnant(d + e) == Remnant(e)
    decreases |d|
  {
    hide Msgs, Remnant, MsgOk, Get32;
    if !MsgOk(d) {
      WalkStop(d);
      assert d + e == e;
    } else {
      var m := WalkHead(d);
      var a := Align4(|m|);
      assert a <= |d| by { RemnantBounds(d); }
      MsgOkAppend(d, e);
      var m' := WalkHead(d + e);
      assert m' == m;
      assert (d + e)[a..] == d[a..] + e;
      WalkAppend(d[a..], e);
    }
  }

  lemma MsgOkAppend(d: bytes, e: bytes)
    requires MsgOk(d)
    ensures MsgOk(d + e) && Get32(d + e, 0) == Get32(d, 0)
  {
  }

  lemma WalkStop(d: bytes)
    requires !MsgOk(d)
    ensures Msgs(d) == [] && Remnant(d) == |d|
  {
  }

  lemma RemnantBounds(d: bytes)
    requires MsgOk(d) && Remnant(d) >= 0
    ensures Align4(Get32(d, 0)) <= |d|
  {
  }

  // ---- The walk by a cursor -----------------------------------------------

  /** NLMSG_OK: the cursor stands on a whole message within the `n` bytes received. */
  predicate OnMessage(s: bytes, n: nat, cur: nat) {
    cur + NLMSG_HDRLEN <= n <= |s| && NLMSG_HDRLEN <= Get32(s, cur) <= n - cur
  }

  function MessageAt(s: bytes, n: nat, cur: nat): (m: message)
    requires OnMessage(s, n, cur)
    ensures |m| == Get32(s, cur)
  {
    Get32Within(s, cur, cur + Get32(s, cur), 0);
    s[cur..cur + Get32(s, cur)]
  }

  /** The walk over the window `s[cur..n]`, one message further. */
  lemma WindowStep(s: bytes, n: nat, cur: nat)
    requires OnMessage(s, n, cur)
    ensures var m0 := MessageAt(s, n, cur);
      var next := cur + Align4(|m0|);
      && Msgs(s[cur..n]) == [m0] + (if next <= n then Msgs(s[next..n]) else [])
      && Remnant(s[cur..n]) == (if next <= n then Remnant(s[next..n]) else n - next)
  {
    hide Msgs, Remnant, Align4;
    Get32Within(s, cur, n, 0);
    var head := WalkHead(s[cur..n]);
    hide Get32;
    assert head == MessageAt(s, n, cur);
    var a := Align4(|head|);
    if cur + a <= n {
      assert s[cur..n][a..] == s[cur + a..n];
    }
  }

  lemma NotOnMessage(s: bytes, n: nat, cur: nat)
    requires cur <= n <= |s| && !OnMessage(s, n, cur)
    ensures Msgs(s[cur..n]) == [] && Remnant(s[cur..n]) == n - cur
  {
    if cur + NLMSG_HDRLEN <= n {
      Get32Within(s, cur, n, 0);
    }
    WalkStop(s[cur..n]);
  }

  // ---- rtnl_send_check --------------------------------------------------

  /** What the kernel does with one `send` and the `recv` that follows it. */
  datatype Reply =
    | SendFailed(errno: int)
    | NothingRead(errno: int)
    | Answered(data: bytes)

  /** What the messages of an answer make of the call: whether it succeeds, and
      the `errno` it leaves. The first NLMSG_ERROR decides. */
  function Answer(ms: seq<message>, errno: int): (bool, int) {
    if ms == [] then (true, errno)
    else if MsgType(ms[0]) == NLMSG_ERROR then (false, ErrorCode(ms[0], errno))
    else Answer(ms[1..], errno)
  }

  /** The `errno` an error message leaves behind: unchanged when truncated. */
  function ErrorCode(m: message, errno: int): int {
    if |m| < NLMSG_HDRLEN + NLMSGERR_SIZE then errno else -Signed32(Get32(m, NLMSG_HDRLEN))
  }

  function SendResult(reply: Reply, errno: int): (bool, int) {
    match reply
    case SendFailed(e) => (false, e)
    case NothingRead(e) => (e == EAGAIN, e)
    case Answered(data) => Answer(Msgs(data), errno)
  }

  /** Type 2, an NLMSG_ERROR. */
  predicate IsError(m: message) {
    m[4] == 2 && m[5] == 0
  }

  lemma ErrorType(m: message)
    ensures MsgType(m) == NLMSG_ERROR <==> IsError(m)
  {
  }

  /** The signed number in bytes 16 to 19, the error code of an NLMSG_ERROR. */
  function CodeAt16(m: message): int
    requires |m| >= 20
  {
    m[16] as int + 0x100 * m[17] as int + 0x1_0000 * m[18] as int +
    0x100_0000 * (if m[19] < 0x80 then m[19] as int else m[19] as int - 0x100)
  }

  /** What an error of less than 36 bytes leaves of `errno`, and one of full size makes of it. */
  function ErrnoAfter(m: message, errno: int): int {
    if |m| < 36 then errno else -CodeAt16(m)
  }

  lemma ErrorBytes(m: message, errno: int)
    ensures ErrorCode(m, errno) == ErrnoAfter(m, errno)
  {
  }

  /** An answer is a success exactly when none of its messages is NLMSG_ERROR:
      an acknowledgement, which is an NLMSG_ERROR with code 0, fails the call. */
  lemma {:induction false} AnswerIsSuccess(ms: seq<message>, errno: int)
    ensures Answer(ms, errno).0 <==> forall i :: 0 <= i < |ms| ==> !IsError(ms[i])
    ensures Answer(ms, errno).0 ==> Answer(ms, errno).1 == errno
  {
    if ms != [] {
      ErrorType(ms[0]);
      hide MsgType, IsError, ErrorCode;
      if !IsError(ms[0]) {
        AnswerIsSuccess(ms[1..], errno);
        assert forall i :: 0 < i < |ms| ==> ms[i] == ms[1..][i - 1];
      }
    }
  }

  /** The first NLMSG_ERROR of an answer. */
  ghost predicate FirstError(ms: seq<message>, k: nat) {
    k < |ms| && IsError(ms[k]) && forall i :: 0 <= i < k ==> !IsError(ms[i])
  }

  lemma {:induction false} FirstErrorDecides(ms: seq<message>, errno: int, k: nat)
    requires FirstError(ms, k)
    ensures Answer(ms, errno) == (false, ErrnoAfter(ms[k], errno))
  {
    ErrorType(ms[0]);
    ErrorBytes(ms[0], errno);
    hide MsgType, IsError, ErrorCode, ErrnoAfter;
    if k > 0 {
      assert !IsError(ms[0]);
      assert ms[1..][k - 1] == ms[k];
      forall i | 0 <= i < k - 1 ensures !IsError(ms[1..][i]) { assert ms[1..][i] == ms[i + 1]; }
      FirstErrorDecides(ms[1..], errno, k - 1);
    }
  }

  /** `rtnl_send_check` after its `send`: walks the answer for an error. */
  method SendCheck(reply: Reply, errno: int) returns (status: int, errno': int)
    requires reply.Answered? ==> |reply.data| <= 1024
    ensures (status >= 0, errno') == SendResult(reply, errno)
    ensures reply.SendFailed? ==> status < 0 && errno' == reply.errno
    ensures reply.NothingRead? ==> (status >= 0 <==> reply.errno == 11) && errno' == reply.errno
    ensures reply.Answered? ==> (status >= 0, errno') == Answer(Msgs(reply.data), errno)
  {
    match reply
    case SendFailed(e) =>
      return -1, e;
    case NothingRead(e) =>
      return (if e == EAGAIN then 0 else -1), e;
    case Answered(data) =>
      var resp := new byte[1024];
      Store(resp, 0, data);
      assert resp[0..|data|] == data;
      status, errno' := WalkForError(resp, |data|, errno);
  }

  /** The loop of `rtnl_send_check`: `h` moves with NLMSG_NEXT. */
  method WalkForError(resp: array<byte>, n: nat, errno: int) returns (status: int, errno': int)
    requires n <= resp.Length
    ensures (status >= 0, errno') == Answer(Msgs(resp[0..n]), errno)
  {
    hide Answer, Msgs, MsgOk, Get32;
    ghost var result := Answer(Msgs(resp[0..n]), errno);
    var h, left := 0, n;
    while left >= NLMSG_HDRLEN && NLMSG_HDRLEN <= Load32(resp, h) <= left
      invariant 0 <= h
      invariant left >= 0 ==> h + left == n && result == Answer(Msgs(resp[h..n]), errno)
      invariant left < 0 ==> result == (true, errno)
      decreases left
    {
      var len := Load32(resp, h);
      AnswerAt(resp, h, n, errno);
      if Load16(resp, h + 4) == NLMSG_ERROR {
        if len < NLMSG_HDRLEN + NLMSGERR_SIZE {
          return -1, errno;
        }
        return -1, -Signed32(Load32(resp, h + NLMSG_HDRLEN));
      }
      h, left := h + Align4(len), left - Align4(len);
    }
    if left >= 0 {
      AnswerEnd(resp, h, n, errno);
    }
    return 0, errno;
  }

  /** One turn of the loop, on the answer that is still ahead. */
  lemma AnswerAt(a: array<byte>, h: nat, n: nat, errno: int)
    requires h + NLMSG_HDRLEN <= n <= a.Length
    requires NLMSG_HDRLEN <= Load32(a, h) <= n - h
    ensures var len := Load32(a, h);
      Answer(Msgs(a[h..n]), errno) ==
      if Load16(a, h + 4) == NLMSG_ERROR then
        (false, if len < NLMSG_HDRLEN + NLMSGERR_SIZE then errno else -Signed32(Load32(a, h + NLMSG_HDRLEN)))
      else if h + Align4(len) <= n then Answer(Msgs(a[h + Align4(len)..n]), errno)
      else (true, errno)
  {
    hide Msgs, Get16;
    var m := WalkAt(a, h, n);
    var rest := if h + Align4(|m|) <= n then Msgs(a[h + Align4(|m|)..n]) else [];
    assert ([m] + rest)[1..] == rest;
  }

  lemma AnswerEnd(a: array<byte>, h: nat, n: nat, errno: int)
    requires h <= n <= a.Length
    requires h + NLMSG_HDRLEN <= n ==> !(NLMSG_HDRLEN <= Load32(a, h) <= n - h)
    ensures Answer(Msgs(a[h..n]), errno) == (true, errno)
  {
    WalkEnd(a, h, n);
  }

  /** One turn of the walk: the message at the cursor, and what follows it. */
  lemma WalkHead(d: bytes) returns (m: message)
    requires MsgOk(d)
    ensures |m| == Get32(d, 0) && m == d[..|m|]
    ensures Msgs(d) == [m] + if Align4(|m|) <= |d| then Msgs(d[Align4(|m|)..]) else []
    ensures Remnant(d) == if Align4(|m|) <= |d| then Remnant(d[Align4(|m|)..]) else |d| - Align4(|m|)
  {
    m := d[..Get32(d, 0)];
  }

  /** The same on a window `a[h..n]` of a buffer, with the fields as the code
      reads them through its cursor. */
  lemma WalkAt(a: array<byte>, h: nat, n: nat) returns (m: message)
    requires h + NLMSG_HDRLEN <= n <= a.Length
    requires NLMSG_HDRLEN <= Load32(a, h) <= n - h
    ensures |m| == Load32(a, h) && m == a[h..h + |m|]
    ensures MsgType(m) == Load16(a, h + 4) && MsgFlags(m) == Load16(a, h + 6) && MsgSeq(m) == Load32(a, h + 8)
    ensures |m| >= NLMSG_HDRLEN + 4 ==> Get32(m, NLMSG_HDRLEN) == Load32(a, h + NLMSG_HDRLEN)
    ensures Msgs(a[h..n]) == [m] + if h + Align4(|m|) <= n then Msgs(a[h + Align4(|m|)..n]) else []
    ensures Remnant(a[h..n]) == if h + Align4(|m|) <= n then Remnant(a[h + Align4(|m|)..n]) else n - h - Align4(|m|)
  {
    var d := a[h..n];
    assert a[..][h..n] == d;
    m := WalkHead(d);
    if h + Align4(|m|) <= n {
      assert d[Align4(|m|)..] == a[h + Align4(|m|)..n];
    }
  }

  lemma WalkEnd(a: array<byte>, h: nat, n: nat)
    requires h <= n <= a.Length
    requires h + NLMSG_HDRLEN <= n ==> !(NLMSG_HDRLEN <= Load32(a, h) <= n - h)
    ensures !MsgOk(a[h..n]) && Msgs(a[h..n]) == [] && Remnant(a[h..n]) == n - h
  {
    assert a[..][h..n] == a[h..n];
  }
}
