/** Netlink attributes: building a message and parsing it (libnetlink.c:342-384). */
module Attributes {
  import opened Bytes
  import opened BitOps
  import opened Common

  const RTA_HDRLEN := 4

  datatype Attr = Attr(kind: nat, payload: bytes)

  /** An attribute that its 16-bit type and length fields can describe. */
  predicate Describable(a: Attr) {
    a.kind < TWO_TO_THE_16 && RTA_HDRLEN + |a.payload| < TWO_TO_THE_16
  }

  // ---- Parsing --------------------------------------------------------------

  /** RTA_OK: the cursor stands on an attribute that ends by `end`. */
  predicate OnAttr(s: bytes, end: nat, cur: nat) {
    cur + RTA_HDRLEN <= end <= |s| && RTA_HDRLEN <= Get16(s, cur) <= end - cur
  }

  function AttrKind(s: bytes, cur: nat, flags: nat): nat
    requires cur + RTA_HDRLEN <= |s|
  {
    AndNot16(Get16(s, cur + 2), flags)
  }

  /** Where the walk from `cur` first meets an attribute of the given type. */
  function FirstAt(s: bytes, end: nat, cur: nat, kind: nat, flags: nat): (r: Option<nat>)
    ensures r.Some? ==> cur <= r.value && OnAttr(s, end, r.value) && AttrKind(s, r.value, flags) == kind
    decreases end - cur
  {
    if !OnAttr(s, end, cur) then None
    else if AttrKind(s, cur, flags) == kind then Some(cur)
    else
      var next := cur + Align4(Get16(s, cur));
      if next <= end then FirstAt(s, end, next, kind, flags) else None
  }

  /** `parse_rtattr_flags`: `tb` holds the offset of the first attribute of each
      type up to `max`. */
  method ParseRtattrFlags(tb: array<Option<nat>>, max: nat, buf: array<byte>, rta: nat, len: nat, flags: nat)
    requires max < tb.Length && rta + len <= buf.Length
    modifies tb
    ensures forall t :: 0 <= t <= max ==> tb[t] == FirstAt(buf[..], rta + len, rta, t, flags)
    ensures forall t :: max < t < tb.Length ==> tb[t] == old(tb[t])
  {
    hide FirstAt, Get16, Align4, AndNot16;
    forall t | 0 <= t <= max {
      tb[t] := None;
    }
    var end := rta + len;
    var cur, left := rta, len;
    while left >= RTA_HDRLEN && RTA_HDRLEN <= Load16(buf, cur) <= left
      invariant 0 <= cur && cur + left == end
      invariant forall t :: 0 <= t <= max ==>
                  FirstAt(buf[..], end, rta, t, flags) ==
                  if tb[t].Some? then tb[t] else if left >= 0 then FirstAt(buf[..], end, cur, t, flags) else None
      invariant forall t :: max < t < tb.Length ==> tb[t] == old(tb[t])
      decreases left
    {
      FirstAtSteps(buf[..], end, cur, flags);
      var kind := AndNot16(Load16(buf, cur + 2), flags);
      if kind <= max && tb[kind].None? {
        tb[kind] := Some(cur);
      }
      var a := Align4(Load16(buf, cur));
      cur, left := cur + a, left - a;
    }
    FirstAtEnd(buf[..], end, cur, flags);
  }

  lemma FirstAtEnd(s: bytes, end: nat, cur: nat, flags: nat)
    requires !OnAttr(s, end, cur)
    ensures forall t: nat :: FirstAt(s, end, cur, t, flags) == None
  {
  }

  lemma FirstAtSteps(s: bytes, end: nat, cur: nat, flags: nat)
    requires OnAttr(s, end, cur)
    ensures forall t: nat ::
      FirstAt(s, end, cur, t, flags) ==
      if AttrKind(s, cur, flags) == t then Some(cur)
      else if cur + Align4(Get16(s, cur)) <= end then FirstAt(s, end, cur + Align4(Get16(s, cur)), t, flags)
      else None
  {
  }

  method ParseRtattr(tb: array<Option<nat>>, max: nat, buf: array<byte>, rta: nat, len: nat)
    requires max < tb.Length && rta + len <= buf.Length
    modifies tb
    ensures forall t :: 0 <= t <= max ==> tb[t] == FirstAt(buf[..], rta + len, rta, t, 0)
    ensures forall t :: max < t < tb.Length ==> tb[t] == old(tb[t])
  {
    ParseRtattrFlags(tb, max, buf, rta, len, 0);
  }

  // ---- Building -------------------------------------------------------------

  function AttrBytes(a: Attr): (r: bytes)
    ensures |r| == RTA_HDRLEN + |a.payload|
  {
    Put16(RTA_HDRLEN + |a.payload|) + Put16(a.kind) + a.payload
  }

  /** A message being built: its header is there. */
  predicate Building(s: bytes) {
    |s| >= 16 && 16 <= Get32(s, 0)
  }

  predicate Fits(s: bytes, maxlen: nat, a: Attr)
    requires Building(s)
  {
    Align4(Get32(s, 0)) + Align4(RTA_HDRLEN + |a.payload|) <= maxlen
  }

  function AddAttr(s: bytes, maxlen: nat, a: Attr): (r: bytes)
    requires Building(s) && maxlen <= |s| && maxlen <= MAX_INT
    ensures |r| == |s| && Building(r) && (Get32(s, 0) <= |s| ==> Get32(r, 0) <= |r|)
  {
    if !Fits(s, maxlen, a) then s
    else
      var at := Align4(Get32(s, 0));
      var len := at + Align4(RTA_HDRLEN + |a.payload|);
      LengthStored(Splice(s, at, AttrBytes(a)), len);
      Splice(Splice(s, at, AttrBytes(a)), 0, Put32(len))
  }

  /** The message with one attribute more, in bytes: at the aligned tail its length and its type, low
      byte first, and its payload; the new length of the message; nothing else has changed. One
      whose aligned size does not fit below `maxlen` changes nothing. */
  lemma AppendedBytes(s: bytes, maxlen: nat, a: Attr)
    requires Building(s) && Get32(s, 0) <= |s| && maxlen <= |s| && maxlen <= MAX_INT
    ensures var at, n, r := (Get32(s, 0) + 3) / 4 * 4, 4 + |a.payload|, AddAttr(s, maxlen, a);
            var end := at + (n + 3) / 4 * 4;
            if end <= maxlen then
              && |r| == |s| && Get32(r, 0) == end && r[4..at] == s[4..at] && r[at + n..] == s[at + n..]
              && r[at..at + n] == [n % 0x100, n / 0x100 % 0x100, a.kind % 0x100, a.kind / 0x100 % 0x100] + a.payload
            else r == s
  {
    var at, n := (Get32(s, 0) + 3) / 4 * 4, 4 + |a.payload|;
    var end := at + (n + 3) / 4 * 4;
    assert Align4(Get32(s, 0)) == at && Align4(n) == end - at;
    hide Align4, Get32;
    if end <= maxlen {
      var b := AttrBytes(a);
      AttrLayout(a);
      hide AttrBytes, Put32;
      LengthStored(Splice(s, at, b), end);
      var r := AddAttr(s, maxlen, a);
      assert r == Put32(end) + s[4..at] + b + s[at + n..];
    }
  }

  lemma AttrLayout(a: Attr)
    ensures var n := 4 + |a.payload|;
            AttrBytes(a) == [n % 0x100, n / 0x100 % 0x100, a.kind % 0x100, a.kind / 0x100 % 0x100] + a.payload
  {
  }

  lemma LengthStored(s: bytes, len: nat)
    requires |s| >= 4 && len < TWO_TO_THE_32
    ensures Get32(Splice(s, 0, Put32(len)), 0) == len
  {
    var b := Put32(len);
    assert Get32(b, 0) == len;
    hide Put32;
  }

  /** `addattr_l`: appends at NLMSG_TAIL, or refuses. The sum is taken in 32 bits. */
  method AddAttrL(n: array<byte>, maxlen: nat, kind: nat, data: bytes) returns (status: int)
    requires Building(n[..]) && maxlen <= n.Length && maxlen <= MAX_INT
    requires Align4(Get32(n[..], 0)) + Align4(RTA_HDRLEN + |data|) < TWO_TO_THE_32
    modifies n
    ensures n[..] == AddAttr(old(n[..]), maxlen, Attr(kind, data))
    ensures status == if Fits(old(n[..]), maxlen, Attr(kind, data)) then 0 else -1
  {
    hide Get32, Align4, Splice, AttrBytes;
    var len := RTA_HDRLEN + |data|;
    var at := Align4(Load32(n, 0));
    if (at + Align4(len)) % TWO_TO_THE_32 > maxlen {
      return -1;
    }
    StoreAttr(n, at, kind, data);
    Store(n, 0, Put32(at + Align4(len)));
    return 0;
  }

  method StoreAttr(n: array<byte>, at: nat, kind: nat, data: bytes)
    requires at + RTA_HDRLEN + |data| <= n.Length
    modifies n
    ensures n[..] == Splice(old(n[..]), at, AttrBytes(Attr(kind, data)))
  {
    AttrStores(n[..], at, Attr(kind, data));
    hide Splice, AttrBytes, Put16;
    Store(n, at + 2, Put16(kind));
    Store(n, at, Put16(RTA_HDRLEN + |data|));
    Store(n, at + RTA_HDRLEN, data);
  }

  /** The three stores of `addattr_l` write one contiguous attribute. */
  lemma AttrStores(s: bytes, at: nat, a: Attr)
    requires at + RTA_HDRLEN + |a.payload| <= |s|
    ensures Splice(Splice(Splice(s, at + 2, Put16(a.kind)), at, Put16(RTA_HDRLEN + |a.payload|)),
                   at + RTA_HDRLEN, a.payload) ==
            Splice(s, at, AttrBytes(a))
  {
    hide Put16;
    var t, l, d := Put16(a.kind), Put16(RTA_HDRLEN + |a.payload|), a.payload;
    var s1 := Splice(s, at + 2, t);
    assert s1 == s[..at + 2] + t + s[at + 4..];
    var s2 := Splice(s1, at, l);
    assert s2 == s[..at] + l + t + s[at + 4..];
    var s3 := Splice(s2, at + 4, d);
    assert s3 == s[..at] + l + t + d + s[at + 4 + |d|..];
  }

  // ---- Build, then parse ----------------------------------------------------

  function Payload(s: bytes, cur: nat, n: nat): bytes
    requires cur + RTA_HDRLEN + n <= |s|
  {
    s[cur + RTA_HDRLEN..cur + RTA_HDRLEN + n]
  }

  /** From `cur` up to `end`, `s` holds exactly these attributes. */
  ghost predicate Holds(s: bytes, end: nat, cur: nat, attrs: seq<Attr>)
    decreases |attrs|
  {
    if attrs == [] then cur == end <= |s|
    else
      var a := attrs[0];
      var next := cur + Align4(RTA_HDRLEN + |a.payload|);
      && OnAttr(s, end, cur)
      && Get16(s, cur) == RTA_HDRLEN + |a.payload|
      && Get16(s, cur + 2) == a.kind
      && Payload(s, cur, |a.payload|) == a.payload
      && next <= end
      && Holds(s, end, next, attrs[1..])
  }

  /** The payload of the first attribute of a type. */
  function Lookup(attrs: seq<Attr>, kind: nat): Option<bytes> {
    if attrs == [] then None
    else if attrs[0].kind == kind then Some(attrs[0].payload)
    else Lookup(attrs[1..], kind)
  }

  /** RTA_DATA and RTA_PAYLOAD of a stored attribute. */
  function PayloadAt(s: bytes, end: nat, r: Option<nat>): Option<bytes>
    requires r.Some? ==> OnAttr(s, end, r.value)
  {
    if r.None? then None
    else Some(Payload(s, r.value, Get16(s, r.value) - RTA_HDRLEN))
  }

  lemma {:induction false} ParseHolds(s: bytes, end: nat, cur: nat, attrs: seq<Attr>, kind: nat)
    requires Holds(s, end, cur, attrs)
    ensures PayloadAt(s, end, FirstAt(s, end, cur, kind, 0)) == Lookup(attrs, kind)
    decreases |attrs|
  {
    if attrs != [] {
      AndNot16None(Get16(s, cur + 2));
      hide AndNot16, Get16, Align4;
      if attrs[0].kind != kind {
        ParseHolds(s, end, cur + Align4(Get16(s, cur)), attrs[1..], kind);
      }
    }
  }

  /** The attributes with some bits of their types left out. */
  function Masked(attrs: seq<Attr>, flags: nat): seq<Attr> {
    if attrs == [] then []
    else [Attr(AndNot16(attrs[0].kind, flags), attrs[0].payload)] + Masked(attrs[1..], flags)
  }

  /** With flag bits masked off, the parse finds the first attribute whose remaining bits match. */
  lemma {:induction false} ParseHoldsMasked(s: bytes, end: nat, cur: nat, attrs: seq<Attr>, kind: nat, flags: nat)
    requires Holds(s, end, cur, attrs)
    ensures PayloadAt(s, end, FirstAt(s, end, cur, kind, flags)) == Lookup(Masked(attrs, flags), kind)
    decreases |attrs|
  {
    if attrs == [] {
      NothingMasked(s, end, kind, flags);
    } else {
      var a, rest := attrs[0], attrs[1..];
      var next := cur + Align4(RTA_HDRLEN + |a.payload|);
      hide AndNot16, Get16, Align4, Payload, FirstAt, PayloadAt, Lookup, Masked, AttrKind;
      FirstAtSteps(s, end, cur, flags);
      MaskedCons(a, rest, flags, kind);
      assert attrs == [a] + rest;
      HeldHere(s, end, cur, a, flags);
      ParseHoldsMasked(s, end, next, rest, kind, flags);
    }
  }

  lemma NothingMasked(s: bytes, end: nat, kind: nat, flags: nat)
    ensures FirstAt(s, end, end, kind, flags) == None && Lookup(Masked([], flags), kind) == None
  {
  }

  lemma MaskedCons(a: Attr, rest: seq<Attr>, flags: nat, kind: nat)
    ensures Lookup(Masked([a] + rest, flags), kind) ==
            if AndNot16(a.kind, flags) == kind then Some(a.payload) else Lookup(Masked(rest, flags), kind)
  {
    hide AndNot16;
    assert ([a] + rest)[1..] == rest;
    var masked := Attr(AndNot16(a.kind, flags), a.payload);
    assert Masked([a] + rest, flags) == [masked] + Masked(rest, flags);
  }

  lemma HeldHere(s: bytes, end: nat, cur: nat, a: Attr, flags: nat)
    requires OnAttr(s, end, cur) && Get16(s, cur) == RTA_HDRLEN + |a.payload| && Get16(s, cur + 2) == a.kind
    requires Payload(s, cur, |a.payload|) == a.payload
    ensures AttrKind(s, cur, flags) == AndNot16(a.kind, flags)
    ensures PayloadAt(s, end, Some(cur)) == Some(a.payload)
  {
    hide AndNot16, Get16, Payload;
  }

  /** Extending the area keeps what it holds, and adds what follows. */
  lemma {:induction false} HoldsAppend(
      s: bytes, end: nat, cur: nat, attrs: seq<Attr>, s': bytes, end': nat, more: seq<Attr>)
    requires Holds(s, end, cur, attrs) && Holds(s', end', end, more)
    requires end <= end' && Same(s, s', cur, end)
    ensures Holds(s', end', cur, attrs + more)
    decreases |attrs|
  {
    hide *;
    if attrs == [] {
      HoldsNothing(s, end, cur);
      assert attrs + more == more;
    } else {
      HoldsBounds(s', end', end, more);
      var a, rest, next := HoldsUncons(s, end, cur, attrs, more);
      HoldsHead(s, end, s', end', cur, a);
      HoldsAppend(s, end, next, rest, s', end', more);
      HoldsCons(s', end', cur, a, rest + more);
    }
  }

  lemma HoldsNothing(s: bytes, end: nat, cur: nat)
    requires Holds(s, end, cur, [])
    ensures cur == end
  {
  }

  ghost predicate HoldsHere(s: bytes, end: nat, cur: nat, a: Attr) {
    && OnAttr(s, end, cur)
    && Get16(s, cur) == RTA_HDRLEN + |a.payload|
    && Get16(s, cur + 2) == a.kind
    && Payload(s, cur, |a.payload|) == a.payload
  }

  lemma HoldsHead(s: bytes, end: nat, s': bytes, end': nat, cur: nat, a: Attr)
    requires HoldsHere(s, end, cur, a)
    requires end <= end' <= |s'| && Same(s, s', cur, end)
    ensures HoldsHere(s', end', cur, a)
    ensures Get16(s', cur) == Get16(s, cur)
    ensures var next := cur + Align4(Get16(s, cur)); next <= end ==> Same(s, s', next, end)
  {
  }

  lemma HoldsUncons(s: bytes, end: nat, cur: nat, attrs: seq<Attr>, more: seq<Attr>)
    returns (a: Attr, rest: seq<Attr>, next: nat)
    requires Holds(s, end, cur, attrs) && attrs != []
    ensures |rest| < |attrs| && attrs + more == [a] + (rest + more)
    ensures HoldsHere(s, end, cur, a)
    ensures next == cur + Align4(Get16(s, cur)) && next <= end && Holds(s, end, next, rest)
  {
    hide Get16, Align4;
    a, rest, next := attrs[0], attrs[1..], cur + Align4(Get16(s, cur));
    assert attrs == [a] + rest;
  }

  lemma HoldsCons(s: bytes, end: nat, cur: nat, a: Attr, rest: seq<Attr>)
    requires HoldsHere(s, end, cur, a)
    requires cur + Align4(Get16(s, cur)) <= end && Holds(s, end, cur + Align4(Get16(s, cur)), rest)
    ensures Holds(s, end, cur, [a] + rest)
  {
    hide Get16, Align4;
    assert ([a] + rest)[1..] == rest;
  }

  /** A message whose attributes start at `start`, so far. */
  ghost predicate Message(s: bytes, start: nat, attrs: seq<Attr>) {
    && Building(s) && Aligned(Get32(s, 0)) && 16 <= start
    && Holds(s, Get32(s, 0), start, attrs)
  }

  /** One append adds one attribute exactly when its 16-bit fields can describe it, and in any
      case leaves the bytes of the message alone. */
  lemma AddAttrHolds(s: bytes, maxlen: nat, start: nat, attrs: seq<Attr>, a: Attr)
    requires Message(s, start, attrs) && maxlen <= |s| && maxlen <= MAX_INT && Fits(s, maxlen, a)
    ensures var s' := AddAttr(s, maxlen, a);
      && Same(s, s', 4, Get32(s, 0))
      && (Message(s', start, attrs + [a]) <==> Describable(a))
  {
    var s' := AddAttr(s, maxlen, a);
    var at := Get32(s, 0);
    AddAttrLength(s, maxlen, a);
    AddAttrIndex(s, maxlen, a);
    hide AddAttr, Get32, Align4, Same, Holds, Wrote, Building, Fits, Describable;
    if Describable(a) {
      HoldsOne(s', Get32(s', 0), at, a);
      HoldsAppend(s, at, start, attrs, s', Get32(s', 0), [a]);
    } else if Message(s', start, attrs + [a]) {
      assert (attrs + [a])[|attrs|] == a;
      HeldIsDescribable(s', Get32(s', 0), start, attrs + [a], |attrs|);
    }
  }

  lemma {:induction false} HeldIsDescribable(s: bytes, end: nat, cur: nat, attrs: seq<Attr>, i: nat)
    requires Holds(s, end, cur, attrs) && i < |attrs|
    ensures Describable(attrs[i])
    decreases |attrs|
  {
    hide Get16;
    if i > 0 {
      HeldIsDescribable(s, end, cur + Align4(RTA_HDRLEN + |attrs[0].payload|), attrs[1..], i - 1);
    }
  }

  lemma AddAttrLength(s: bytes, maxlen: nat, a: Attr)
    requires Building(s) && Aligned(Get32(s, 0))
    requires maxlen <= |s| && maxlen <= MAX_INT && Fits(s, maxlen, a)
    ensures var s' := AddAttr(s, maxlen, a);
      && Building(s') && Aligned(Get32(s', 0)) && Get32(s', 0) <= |s'|
      && Get32(s, 0) == Align4(Get32(s, 0))
      && Get32(s', 0) == Get32(s, 0) + Align4(RTA_HDRLEN + |a.payload|)
  {
    var at := Align4(Get32(s, 0));
    var len := at + Align4(RTA_HDRLEN + |a.payload|);
    Align4Facts(Get32(s, 0));
    Align4Facts(RTA_HDRLEN + |a.payload|);
    AlignedSum(at, Align4(RTA_HDRLEN + |a.payload|));
    LengthStored(Splice(s, at, AttrBytes(a)), len);
    hide AttrBytes, Put32, Get32, Align4, Splice, Aligned;
  }

  lemma AddAttrIndex(s: bytes, maxlen: nat, a: Attr)
    requires Building(s) && maxlen <= |s| && maxlen <= MAX_INT && Fits(s, maxlen, a)
    ensures var s' := AddAttr(s, maxlen, a);
      var at := Align4(Get32(s, 0));
      && (forall lo :: lo >= 4 ==> Same(s, s', lo, at))
      && Wrote(s', at, AttrBytes(a))
  {
    var at := Align4(Get32(s, 0));
    var len := at + Align4(RTA_HDRLEN + |a.payload|);
    hide AttrBytes, Align4, Put32, Get32;
    SpliceIndex(s, at, AttrBytes(a));
    SpliceIndex(Splice(s, at, AttrBytes(a)), 0, Put32(len));
    hide Splice;
  }

  lemma HoldsOne(s: bytes, end: nat, at: nat, a: Attr)
    requires Describable(a)
    requires at + Align4(RTA_HDRLEN + |a.payload|) == end <= |s|
    requires Wrote(s, at, AttrBytes(a))
    ensures Holds(s, end, at, [a])
  {
    var b := AttrBytes(a);
    AttrFields(a);
    assert s[at + 0] == b[0] && s[at + 1] == b[1] && s[at + 2] == b[2] && s[at + 3] == b[3];
    assert s[at + 4..at + |b|] == b[4..];
    hide AttrBytes;
    assert [a][1..] == [];
  }

  lemma AttrFields(a: Attr)
    requires Describable(a)
    ensures var b := AttrBytes(a);
      Get16(b, 0) == RTA_HDRLEN + |a.payload| && Get16(b, 2) == a.kind && b[4..] == a.payload
  {
    var b := AttrBytes(a);
    var n := Put16(RTA_HDRLEN + |a.payload|);
    var k := Put16(a.kind);
    hide Put16;
    assert b[0] == n[0] && b[1] == n[1] && b[2] == k[0] && b[3] == k[1];
  }

  /** A run of `addattr_l` calls: the message, and the attributes that were accepted. */
  function AddAll(s: bytes, maxlen: nat, attrs: seq<Attr>): (r: (bytes, seq<Attr>))
    requires Building(s) && maxlen <= |s| && maxlen <= MAX_INT
    ensures |r.0| == |s| && Building(r.0) && (Get32(s, 0) <= |s| ==> Get32(r.0, 0) <= |r.0|)
    decreases |attrs|
  {
    if attrs == [] then (s, [])
    else
      var rest := AddAll(AddAttr(s, maxlen, attrs[0]), maxlen, attrs[1..]);
      (rest.0, (if Fits(s, maxlen, attrs[0]) then [attrs[0]] else []) + rest.1)
  }

  lemma Refused(s: bytes, maxlen: nat, a: Attr)
    requires Building(s) && maxlen <= |s| && maxlen <= MAX_INT && !Fits(s, maxlen, a)
    ensures AddAttr(s, maxlen, a) == s
  {
  }

  lemma {:induction false} HoldsBounds(s: bytes, end: nat, cur: nat, attrs: seq<Attr>)
    requires Holds(s, end, cur, attrs)
    ensures cur <= end <= |s|
    decreases |attrs|
  {
    if attrs != [] {
      HoldsBounds(s, end, cur + Align4(RTA_HDRLEN + |attrs[0].payload|), attrs[1..]);
    }
  }

  // ---- Walking past what is held ----------------------------------------------

  /** The walk from `cur` meets these attributes and then stands at `at`. */
  ghost predicate Walks(s: bytes, end: nat, cur: nat, attrs: seq<Attr>, at: nat)
    decreases |attrs|
  {
    if attrs == [] then cur == at <= end <= |s|
    else
      && HoldsHere(s, end, cur, attrs[0])
      && cur + Align4(Get16(s, cur)) <= end
      && Walks(s, end, cur + Align4(Get16(s, cur)), attrs[1..], at)
  }

  lemma {:induction false} HoldsWalks(s: bytes, end: nat, cur: nat, attrs: seq<Attr>, s': bytes, end': nat)
    requires Holds(s, end, cur, attrs) && end <= end' <= |s'| && Same(s, s', cur, end)
    ensures Walks(s', end', cur, attrs, end)
    decreases |attrs|
  {
    if attrs != [] {
      var next := cur + Align4(Get16(s, cur));
      HoldsHead(s, end, s', end', cur, attrs[0]);
      assert next <= end && Holds(s, end, next, attrs[1..]);
      hide Same, Holds, HoldsHere, Get16, Align4, OnAttr, Payload;
      HoldsWalks(s, end, next, attrs[1..], s', end');
    }
  }

  /** The parse finds the first attribute of a type among those walked over; if there is none,
      it finds what it would find from there on. */
  lemma {:induction false} ParseWalks(s: bytes, end: nat, cur: nat, attrs: seq<Attr>, at: nat, kind: nat)
    requires Walks(s, end, cur, attrs, at)
    ensures PayloadAt(s, end, FirstAt(s, end, cur, kind, 0)) ==
            if Lookup(attrs, kind).Some? then Lookup(attrs, kind) else PayloadAt(s, end, FirstAt(s, end, at, kind, 0))
    decreases |attrs|
  {
    if attrs != [] {
      AndNot16None(Get16(s, cur + 2));
      hide AndNot16, Get16, Align4;
      if attrs[0].kind != kind {
        ParseWalks(s, end, cur + Align4(Get16(s, cur)), attrs[1..], at, kind);
      }
    }
  }

  lemma {:induction false} LaterAppends(s: bytes, maxlen: nat, attrs: seq<Attr>)
    requires Building(s) && Get32(s, 0) <= |s| && maxlen <= |s| && maxlen <= MAX_INT
    ensures var built := AddAll(s, maxlen, attrs).0;
      Same(s, built, 4, Get32(s, 0)) && Get32(s, 0) <= Get32(built, 0) <= |built|
    decreases |attrs|
  {
    if attrs != [] {
      var a := attrs[0];
      var s1 := AddAttr(s, maxlen, a);
      LengthGrows(s, maxlen, a);
      hide AddAttr, Get32, Align4;
      LaterAppends(s1, maxlen, attrs[1..]);
    }
  }

  lemma LengthGrows(s: bytes, maxlen: nat, a: Attr)
    requires Building(s) && Get32(s, 0) <= |s| && maxlen <= |s| && maxlen <= MAX_INT
    ensures var s1 := AddAttr(s, maxlen, a); Get32(s, 0) <= Get32(s1, 0) && Same(s, s1, 4, Get32(s, 0))
  {
    if Fits(s, maxlen, a) {
      AddAttrIndex(s, maxlen, a);
      var at := Align4(Get32(s, 0));
      LengthStored(Splice(s, at, AttrBytes(a)), at + Align4(RTA_HDRLEN + |a.payload|));
      hide Get32, AttrBytes, Splice, Align4, Put32;
      assert Same(s, AddAttr(s, maxlen, a), 4, at);
    }
  }

  /** The attributes before the first that is too long or whose type is too large. */
  function Sound(attrs: seq<Attr>): (p: seq<Attr>)
    ensures p <= attrs && (|p| < |attrs| ==> !Describable(attrs[|p|]))
  {
    if attrs == [] || !Describable(attrs[0]) then [] else [attrs[0]] + Sound(attrs[1..])
  }

  /** After these attributes were accepted on top of `before`, the walk meets the sound ones, and
      then stands at the end or on the first other one. */
  ghost predicate Appended(s: bytes, built: bytes, start: nat, before: seq<Attr>, accepted: seq<Attr>, at: nat) {
    var p := Sound(accepted);
    && Building(s) && Building(built)
    && Same(s, built, 4, Get32(s, 0)) && Get32(s, 0) <= Get32(built, 0)
    && Walks(built, Get32(built, 0), start, before + p, at)
    && (if p == accepted then at == Get32(built, 0) else Wrote(built, at, AttrBytes(accepted[|p|])))
  }

  lemma {:induction false} AddAllWalks(s: bytes, maxlen: nat, start: nat, before: seq<Attr>, attrs: seq<Attr>)
    returns (at: nat)
    requires Message(s, start, before) && maxlen <= |s| && maxlen <= MAX_INT
    ensures var r := AddAll(s, maxlen, attrs); Appended(s, r.0, start, before, r.1, at)
    decreases |attrs|
  {
    hide AddAttr, Fits, Get32, Holds, Walks, Describable, AttrBytes, Appended, Sound;
    if attrs == [] {
      at := NothingAppended(s, start, before);
    } else {
      var a, rest := attrs[0], attrs[1..];
      var s1 := AddAttr(s, maxlen, a);
      var tail := AddAll(s1, maxlen, rest);
      if !Fits(s, maxlen, a) {
        Refused(s, maxlen, a);
        at := AddAllWalks(s, maxlen, start, before, rest);
        assert [] + tail.1 == tail.1;
      } else if Describable(a) {
        AddAttrHolds(s, maxlen, start, before, a);
        AddAttrLength(s, maxlen, a);
        at := AddAllWalks(s1, maxlen, start, before + [a], rest);
        OneAppended(s, s1, tail.0, start, before, a, tail.1, at);
      } else {
        at := Get32(s, 0);
        AddAttrIndex(s, maxlen, a);
        AddAttrLength(s, maxlen, a);
        LaterAppends(s1, maxlen, rest);
        TooLongAppended(s, s1, tail.0, start, before, a, tail.1, at);
      }
    }
  }

  lemma NothingAppended(s: bytes, start: nat, before: seq<Attr>) returns (at: nat)
    requires Message(s, start, before)
    ensures Appended(s, s, start, before, [], at)
  {
    hide Get32, Holds, Walks;
    at := Get32(s, 0);
    HoldsBounds(s, at, start, before);
    HoldsWalks(s, at, start, before, s, at);
    assert before + [] == before;
  }

  lemma OneAppended(s: bytes, s1: bytes, built: bytes, start: nat, before: seq<Attr>, a: Attr, rest: seq<Attr>, at: nat)
    requires Building(s) && Building(s1) && Same(s, s1, 4, Get32(s, 0)) && Get32(s, 0) <= Get32(s1, 0)
    requires Describable(a) && Appended(s1, built, start, before + [a], rest, at)
    ensures Appended(s, built, start, before, [a] + rest, at)
  {
    hide Get32, Walks, Describable, AttrBytes, Sound;
    SoundCons(a, rest);
    assert (before + [a]) + Sound(rest) == before + ([a] + Sound(rest));
  }

  lemma TooLongAppended(
      s: bytes, s1: bytes, built: bytes, start: nat, before: seq<Attr>, a: Attr, rest: seq<Attr>, at: nat)
    requires Message(s, start, before) && Building(s1) && Building(built) && !Describable(a) && at == Get32(s, 0)
    requires Same(s, s1, 4, at) && Wrote(s1, at, AttrBytes(a)) && Get32(s1, 0) == at + Align4(RTA_HDRLEN + |a.payload|)
    requires Same(s1, built, 4, Get32(s1, 0)) && Get32(s1, 0) <= Get32(built, 0) <= |built|
    ensures Appended(s, built, start, before, [a] + rest, at)
  {
    hide Get32, Walks, Describable, AttrBytes, Sound, Holds, Align4;
    HoldsBounds(s, at, start, before);
    StillWritten(s, s1, built, at, a);
    hide Wrote;
    assert Same(s, built, start, at);
    HoldsWalks(s, at, start, before, built, Get32(built, 0));
    SoundCons(a, rest);
    assert before + [] == before && ([a] + rest)[0] == a;
  }

  lemma SoundCons(a: Attr, rest: seq<Attr>)
    ensures Sound([a] + rest) == if Describable(a) then [a] + Sound(rest) else []
    ensures Describable(a) ==> (Sound([a] + rest) == [a] + rest <==> Sound(rest) == rest)
    ensures Describable(a) && Sound(rest) != rest ==> ([a] + rest)[|Sound([a] + rest)|] == rest[|Sound(rest)|]
  {
    hide Describable;
    assert ([a] + rest)[1..] == rest;
  }

  lemma StillWritten(s: bytes, s1: bytes, built: bytes, at: nat, a: Attr)
    requires Wrote(s1, at, AttrBytes(a)) && at >= 4
    requires Same(s1, built, 4, at + Align4(|AttrBytes(a)|)) && Same(s, s1, 4, at)
    ensures Wrote(built, at, AttrBytes(a)) && Same(s, built, 4, at)
  {
    hide AttrBytes;
  }

  /** Build then parse, for any run of appends on an aligned header, refused ones included: if
      the 16-bit fields can describe every attribute accepted, `parse_rtattr` finds for each
      type the first one, payload intact, or none. In any case it finds those accepted before
      the first that they cannot describe, and the header is untouched but for its length. */
  lemma BuildThenParse(s: bytes, maxlen: nat, attrs: seq<Attr>, kind: nat)
    requires Building(s) && Aligned(Get32(s, 0)) && Get32(s, 0) <= |s| && maxlen <= |s| && maxlen <= MAX_INT
    ensures var start := Get32(s, 0);
      var (built, accepted) := AddAll(s, maxlen, attrs);
      var end := Get32(built, 0);
      var found, sound := PayloadAt(built, end, FirstAt(built, end, start, kind, 0)), Sound(accepted);
      && Same(s, built, 4, start)
      && (sound == accepted ==> found == Lookup(accepted, kind))
      && (Lookup(sound, kind).Some? ==> found == Lookup(sound, kind) == Lookup(accepted, kind))
  {
    var start := Get32(s, 0);
    var (built, accepted) := AddAll(s, maxlen, attrs);
    var at := AddAllWalks(s, maxlen, start, [], attrs);
    LookupPrefix(Sound(accepted), accepted, kind);
    hide AddAll, Get32, FirstAt, Sound, Walks;
    assert [] + Sound(accepted) == Sound(accepted);
    assert Building(built);
    ParseWalks(built, Get32(built, 0), start, Sound(accepted), at, kind);
    if Sound(accepted) == accepted { NothingAtEnd(built, at, kind); }
  }

  lemma NothingAtEnd(s: bytes, end: nat, kind: nat)
    ensures FirstAt(s, end, end, kind, 0) == None
  {
  }

  lemma {:induction false} LookupPrefix(p: seq<Attr>, attrs: seq<Attr>, kind: nat)
    requires p <= attrs
    ensures Lookup(p, kind).Some? ==> Lookup(attrs, kind) == Lookup(p, kind)
  {
    if p != [] { LookupPrefix(p[1..], attrs[1..], kind); }
  }

  /** What is read back is never longer than the 16-bit length field can say. */
  lemma PayloadBound(s: bytes, end: nat, r: Option<nat>)
    requires r.Some? ==> OnAttr(s, end, r.value)
    ensures PayloadAt(s, end, r).Some? ==> RTA_HDRLEN + |PayloadAt(s, end, r).value| < TWO_TO_THE_16
  {
  }

  predicate Typed(attrs: seq<Attr>, kind: nat) {
    exists i :: 0 <= i < |attrs| && attrs[i].kind == kind
  }

  /** Every attribute has a type of its own, of 16 bits. */
  predicate OwnTypes(attrs: seq<Attr>) {
    attrs == [] || (attrs[0].kind < TWO_TO_THE_16 && !Typed(attrs[1..], attrs[0].kind) && OwnTypes(attrs[1..]))
  }

  lemma {:induction false} AcceptedOwnTypes(s: bytes, maxlen: nat, attrs: seq<Attr>)
    requires Building(s) && maxlen <= |s| && maxlen <= MAX_INT && OwnTypes(attrs)
    ensures var accepted := AddAll(s, maxlen, attrs).1;
      OwnTypes(accepted) && forall k :: Typed(accepted, k) ==> Typed(attrs, k)
    decreases |attrs|
  {
    hide AddAttr, Fits;
    if attrs != [] {
      var a, rest := attrs[0], attrs[1..];
      var later := AddAll(AddAttr(s, maxlen, a), maxlen, rest).1;
      AcceptedOwnTypes(AddAttr(s, maxlen, a), maxlen, rest);
      assert attrs == [a] + rest && ([a] + later)[1..] == later && [] + later == later;
      hide AddAll;
      forall k ensures Typed([a] + rest, k) <==> a.kind == k || Typed(rest, k)
        ensures Typed([a] + later, k) <==> a.kind == k || Typed(later, k)
      {
        TypedCons(a, rest, k);
        TypedCons(a, later, k);
      }
      hide Typed;
    }
  }

  lemma TypedCons(a: Attr, rest: seq<Attr>, k: nat)
    ensures Typed([a] + rest, k) <==> a.kind == k || Typed(rest, k)
  {
    var all := [a] + rest;
    if i :| 0 <= i < |rest| && rest[i].kind == k { assert all[i + 1].kind == k; }
    if a.kind == k { assert all[0].kind == k; }
  }

  lemma {:induction false} LookupOwn(attrs: seq<Attr>, i: nat)
    requires OwnTypes(attrs) && i < |attrs|
    ensures attrs[i].kind < TWO_TO_THE_16 && Lookup(attrs, attrs[i].kind) == Some(attrs[i].payload)
  {
    if i > 0 {
      assert attrs[1..][i - 1] == attrs[i];
      LookupOwn(attrs[1..], i - 1);
    }
  }

  lemma {:induction false} OwnTypesSmall(attrs: seq<Attr>)
    requires OwnTypes(attrs)
    ensures forall i :: 0 <= i < |attrs| ==> attrs[i].kind < TWO_TO_THE_16
  {
    forall i | 0 <= i < |attrs| ensures attrs[i].kind < TWO_TO_THE_16 { LookupOwn(attrs, i); }
  }

  /** After a run of appends of attributes of different types, parsing gives exactly what was
      accepted if and only if each of those has a length that its 16-bit field can hold. */
  lemma RunReadsBackIff(s: bytes, maxlen: nat, attrs: seq<Attr>)
    requires Building(s) && Aligned(Get32(s, 0)) && Get32(s, 0) <= |s| && maxlen <= |s| && maxlen <= MAX_INT
    requires OwnTypes(attrs)
    ensures var (built, accepted) := AddAll(s, maxlen, attrs);
      var start, end := Get32(s, 0), Get32(built, 0);
      (forall kind: nat :: PayloadAt(built, end, FirstAt(built, end, start, kind, 0)) == Lookup(accepted, kind)) <==>
      (forall i :: 0 <= i < |accepted| ==> RTA_HDRLEN + |accepted[i].payload| < TWO_TO_THE_16)
  {
    var (built, accepted) := AddAll(s, maxlen, attrs);
    var start, end := Get32(s, 0), Get32(built, 0);
    AcceptedOwnTypes(s, maxlen, attrs);
    hide AddAll, Get32, FirstAt, PayloadAt;
    if forall i :: 0 <= i < |accepted| ==> RTA_HDRLEN + |accepted[i].payload| < TWO_TO_THE_16 {
      OwnTypesSmall(accepted);
      SoundIfAll(accepted);
      forall kind: nat ensures PayloadAt(built, end, FirstAt(built, end, start, kind, 0)) == Lookup(accepted, kind) {
        BuildThenParse(s, maxlen, attrs, kind);
      }
    } else {
      var i :| 0 <= i < |accepted| && RTA_HDRLEN + |accepted[i].payload| >= TWO_TO_THE_16;
      LookupOwn(accepted, i);
      PayloadBound(built, end, FirstAt(built, end, start, accepted[i].kind, 0));
    }
  }

  lemma {:induction false} SoundIfAll(attrs: seq<Attr>)
    requires forall i :: 0 <= i < |attrs| ==> Describable(attrs[i])
    ensures Sound(attrs) == attrs
  {
    if attrs != [] {
      SoundIfAll(attrs[1..]);
      assert attrs == [attrs[0]] + attrs[1..];
    }
  }

  /** The 16-bit length field decides. An attribute of a type that the message does not have
      yet, accepted after any others, reads back exactly when the field can hold its length:
      one that is too long is accepted all the same. */
  lemma ReadsBackIffDescribable(s: bytes, maxlen: nat, start: nat, before: seq<Attr>, a: Attr)
    requires Message(s, start, before) && Lookup(before, a.kind) == None && maxlen <= |s| && maxlen <= MAX_INT
    requires Fits(s, maxlen, a) && a.kind < TWO_TO_THE_16
    ensures var built := AddAttr(s, maxlen, a);
      var end := Get32(built, 0);
      PayloadAt(built, end, FirstAt(built, end, start, a.kind, 0)) == Some(a.payload) <==> Describable(a)
  {
    var built, at := AddAttr(s, maxlen, a), Get32(s, 0);
    var end := Get32(built, 0);
    AddAttrLength(s, maxlen, a);
    AddAttrIndex(s, maxlen, a);
    assert Same(s, built, start, at);
    hide AddAttr, Get32, FirstAt, Same, Wrote, Holds;
    HoldsWalks(s, at, start, before, built, end);
    ParseWalks(built, end, start, before, at, a.kind);
    if Describable(a) {
      HoldsOne(built, end, at, a);
      ParseHolds(built, end, at, [a], a.kind);
    } else {
      PayloadBound(built, end, FirstAt(built, end, start, a.kind, 0));
    }
  }
}
