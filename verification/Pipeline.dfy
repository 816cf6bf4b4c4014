/**
 From the kernel's datagrams to the list of hosts: the dump loop, the printer and
 the parser together (ipneigh.c:321-387, LanDeviceScanner.kt:164-210).
 */
module Pipeline {
  import opened Bytes
  import opened BitOps
  import opened Netlink
  import opened Attributes
  import opened Common
  import opened DumpFilter
  import opened FlatDump
  import opened Neighbour
  import opened ArpTable
  import opened ArpRoundTrip

  /** `print_neigh` as the callback of a dump. */
  function Callback(env: Env, f: Filter): FilterArg {
    FilterArg((log: seq<Call>, c: Call) =>
      if Legible(env, f, false, c.msg) && Decide(env, f, false, c.msg).Broken? then -1 else 0, 0)
  }

  /** Every message is skipped, filtered out, or printed as one line. */
  ghost predicate Clean(env: Env, f: Filter, m: message) {
    && Legible(env, f, false, m) && !Decide(env, f, false, m).Broken?
    && (Decide(env, f, false, m).Accepted? ==> NoBreak(Line(env, f, m)))
  }

  /** The host of a complete entry is the one that `Found` names; for any other it is what the
      parser makes of its own line. */
  ghost function HostFor(env: Env, f: Filter, inet: Inet, m: entry): Option<Host> {
    if Complete(env, f, m) then Found(env, inet, m) else HostOf(inet, Line(env, f, m))
  }

  lemma CompleteIsClean(env: Env, f: Filter, m: message)
    requires Legible(env, f, false, m) && !Decide(env, f, false, m).Broken?
    requires Decide(env, f, false, m).Accepted? ==> Complete(env, f, m)
    ensures Clean(env, f, m)
  {
    hide Line, Complete, NoBreak;
    if Decide(env, f, false, m).Accepted? { LineNoBreak(env, f, m); }
  }

  ghost predicate AllClean(env: Env, f: Filter, ms: seq<message>) {
    forall i :: 0 <= i < |ms| ==> Clean(env, f, ms[i])
  }

  ghost predicate AllLegible(env: Env, f: Filter, ms: seq<message>) {
    forall i :: 0 <= i < |ms| ==> Legible(env, f, false, ms[i])
  }

  /** The text in the pipe after the callback has seen these messages. */
  ghost function PipeText(env: Env, f: Filter, ms: seq<message>): string
    requires AllLegible(env, f, ms)
  {
    if ms == [] then "" else Printed(env, f, ms[0]) + PipeText(env, f, ms[1..])
  }

  lemma {:induction false} PipeTextSnoc(env: Env, f: Filter, ms: seq<message>, m: message)
    requires AllLegible(env, f, ms) && Legible(env, f, false, m)
    ensures AllLegible(env, f, ms + [m])
    ensures PipeText(env, f, ms + [m]) == PipeText(env, f, ms) + Printed(env, f, m)
  {
    hide Printed, Legible;
    if ms == [] {
      assert ([] + [m])[1..] == [] && Printed(env, f, m) + "" == Printed(env, f, m) == "" + Printed(env, f, m);
      assert PipeText(env, f, []) == "";
    } else {
      var rest := ms[1..];
      assert (ms + [m])[1..] == rest + [m];
      PipeTextSnoc(env, f, rest, m);
      var a, b, c := Printed(env, f, ms[0]), PipeText(env, f, rest), Printed(env, f, m);
      assert a + (b + c) == (a + b) + c;
    }
  }

  /** `print_neigh` called on the messages delivered, one after another: each call returns what
      the callback of the model says, and together they write the text of the model. */
  method PrintDelivered(printer: IpNeigh, ms: seq<message>) returns (codes: seq<int>)
    requires printer.flushb == null && AllLegible(printer.env, printer.filter, ms)
    modifies printer`flushp, printer`flushed, printer`retired, printer`out,
             printer.rth`errno, printer.rth`wire, printer.rth`seqNo
    ensures printer.out == old(printer.out) + PipeText(printer.env, printer.filter, ms)
    ensures |codes| == |ms|
    ensures forall i :: 0 <= i < |ms| ==>
              codes[i] == Callback(printer.env, printer.filter).run(Calls(ms[..i]), Call(0, 0, ms[i]))
  {
    hide *;
    ghost var env, f, start := printer.env, printer.filter, printer.out;
    codes := [];
    NoText(env, f, start);
    for i := 0 to |ms|
      invariant printer.flushb == null && printer.filter == f && |codes| == i
      invariant TextIs(printer.out, start, env, f, ms[..i])
      invariant forall j :: 0 <= j < i ==> codes[j] == CodeOf(env, f, ms, j)
    {
      LegibleAt(env, f, ms, i);
      var code := PrintOne(printer, ms[i]);
      OneMoreText(start, env, f, ms, i);
      codes := codes + [code];
    }
    WholeText(printer.out, start, env, f, ms);
    CodesAre(env, f, ms);
  }

  method PrintOne(printer: IpNeigh, m: message) returns (code: int)
    requires printer.flushb == null && Legible(printer.env, printer.filter, false, m)
    modifies printer`flushp, printer`flushed, printer`retired, printer`out,
             printer.rth`errno, printer.rth`wire, printer.rth`seqNo
    ensures printer.out == old(printer.out) + Printed(printer.env, printer.filter, m)
    ensures code == if Decide(printer.env, printer.filter, false, m).Broken? then -1 else 0
  {
    hide Printed, Legible, Decide, FlushQueue.Enqueue;
    var n := new byte[|m|](k requires 0 <= k < |m| => m[k]);
    assert n[..] == m;
    code := printer.PrintNeigh(n, NothingRead(EAGAIN));
  }

  /** The text of these messages after what was there at the start. */
  ghost predicate TextIs(out: string, start: string, env: Env, f: Filter, ms: seq<message>) {
    AllLegible(env, f, ms) && out == start + PipeText(env, f, ms)
  }

  function CodeOf(env: Env, f: Filter, ms: seq<message>, i: nat): int
    requires i < |ms|
  {
    if Legible(env, f, false, ms[i]) && Decide(env, f, false, ms[i]).Broken? then -1 else 0
  }

  lemma OneMoreText(start: string, env: Env, f: Filter, ms: seq<message>, i: nat)
    requires i < |ms| && Legible(env, f, false, ms[i])
    ensures forall out :: TextIs(out, start, env, f, ms[..i]) ==>
              TextIs(out + Printed(env, f, ms[i]), start, env, f, ms[..i + 1])
    ensures CodeOf(env, f, ms, i) == if Decide(env, f, false, ms[i]).Broken? then -1 else 0
  {
    hide Printed, Legible, Decide, AllLegible, PipeText;
    assert ms[..i + 1] == ms[..i] + [ms[i]];
    if AllLegible(env, f, ms[..i]) {
      PipeTextSnoc(env, f, ms[..i], ms[i]);
      var a, b := PipeText(env, f, ms[..i]), Printed(env, f, ms[i]);
      assert start + a + b == start + (a + b);
    }
  }

  lemma WholeText(out: string, start: string, env: Env, f: Filter, ms: seq<message>)
    requires TextIs(out, start, env, f, ms[..|ms|])
    ensures AllLegible(env, f, ms) && out == start + PipeText(env, f, ms)
  {
    assert ms[..|ms|] == ms;
  }

  lemma CodesAre(env: Env, f: Filter, ms: seq<message>)
    ensures forall i :: 0 <= i < |ms| ==>
              CodeOf(env, f, ms, i) == Callback(env, f).run(Calls(ms[..i]), Call(0, 0, ms[i]))
  {
    hide Legible, Decide;
  }

  lemma NoText(env: Env, f: Filter, start: string)
    ensures forall ms: seq<message> :: TextIs(start, start, env, f, ms[..0])
  {
  }

  lemma LegibleAt(env: Env, f: Filter, ms: seq<message>, i: nat)
    requires AllLegible(env, f, ms) && i < |ms|
    ensures Legible(env, f, false, ms[i])
  {
  }

  /** The hosts that the accepted entries should become, in order. */
  ghost function AllFound(env: Env, f: Filter, inet: Inet, ms: seq<message>): seq<Host>
    requires AllClean(env, f, ms)
  {
    if ms == [] then []
    else
      (if Decide(env, f, false, ms[0]).Accepted? && HostFor(env, f, inet, ms[0]).Some?
       then [HostFor(env, f, inet, ms[0]).value] else []) + AllFound(env, f, inet, ms[1..])
  }

  /** The parser gets from the pipe exactly the hosts of the accepted entries. */
  lemma {:induction false} ParsedIsFound(env: Env, f: Filter, inet: Inet, ms: seq<message>)
    requires AllClean(env, f, ms) && AllLegible(env, f, ms) && !f.master
    ensures HostsOf(inet, ReadLines(PipeText(env, f, ms))) == AllFound(env, f, inet, ms)
    decreases |ms|
  {
    if ms != [] {
      var m, rest := ms[0], ms[1..];
      assert Clean(env, f, m) && AllClean(env, f, rest) && AllLegible(env, f, rest);
      hide AllClean, AllLegible, Legible, Line, Field, HostOf, HostFor, Decide, ReadLines;
      ParsedIsFound(env, f, inet, rest);
      PrintedOne(env, f, m);
      if Decide(env, f, false, m).Accepted? {
        LinesCons(Line(env, f, m), "\n", PipeText(env, f, rest));
        LineIsHostFor(env, f, inet, m);
        assert ([Line(env, f, m)] + ReadLines(PipeText(env, f, rest)))[1..] == ReadLines(PipeText(env, f, rest));
      } else {
        assert "" + PipeText(env, f, rest) == PipeText(env, f, rest);
      }
    }
  }

  lemma LineIsHostFor(env: Env, f: Filter, inet: Inet, m: entry)
    ensures HostOf(inet, Line(env, f, m)) == HostFor(env, f, inet, m)
  {
    if Complete(env, f, m) { HostOfLine(env, f, inet, m); }
    hide HostOf, Line, Found, Complete;
  }

  lemma PrintedOne(env: Env, f: Filter, m: message)
    requires Legible(env, f, false, m) && !f.master
    ensures Printed(env, f, m) == if Decide(env, f, false, m).Accepted? then Line(env, f, m) + "\n" else ""
  {
    hide Line, Decide;
  }

  /** The messages before the first DONE or ERROR. */
  function UpToEnd(ms: seq<message>): (r: seq<message>)
    ensures r <= ms && (forall j :: 0 <= j < |r| ==> !Ends(ms[j])) && (|r| < |ms| ==> Ends(ms[|r|]))
  {
    if ms == [] || Ends(ms[0]) then [] else [ms[0]] + UpToEnd(ms[1..])
  }

  /** The dump of `do_show_or_flush`, end to end. Whatever the cut of the kernel's
      messages into datagrams, `print_neigh` sees the messages of the dump up to the
      first DONE or ERROR, and after a DONE without error the parser gets exactly
      the hosts of the accepted entries, in order. */
  lemma DumpToHosts(rs: seq<Receipt>, s: bytes, h: Handle, env: Env, f: Filter, inet: Inet)
    requires !h.dumping && |s| == BUFFER_SIZE && AllWellFormed(rs) && !f.master
    requires AllClean(env, f, UpToEnd(Relevant(Flatten(rs), h, 0)))
    ensures var ms, run := Relevant(Flatten(rs), h, 0), Run(s, rs, h, [Callback(env, f)], []);
      var seen := UpToEnd(ms);
      && AllLegible(env, f, seen)
      && (seen == ms ==> run == (Waiting, Calls(ms)))
      && (seen != ms ==>
            && var end := ms[|seen|];
            && run == (Returned(if end[4..6] == [3, 0] && |end| >= 20 && end[19] < 0x80 then 0 else -1), Calls(seen)))
      && HostsOf(inet, ReadLines(PipeText(env, f, seen))) == AllFound(env, f, inet, seen)
  {
    hide Run, Flatten, Clean, Relevant, Ends, Msgs, AllWellFormed, Calls, UpToEnd;
    var arg, ms := Callback(env, f), Relevant(Flatten(rs), h, 0);
    var seen := UpToEnd(ms);
    var k := DumpDelivers(rs, s, h, arg);
    forall j | 0 <= j < |seen| ensures !StopsAt(ms, j, arg) {
      assert Clean(env, f, seen[j]);
      CleanIsZero(env, f, ms[j], Calls(ms[..j]));
    }
    if |seen| < |ms| { EndStops(ms, |seen|, arg); }
    assert k == |seen| && ms[..k] == seen;
    if k < |ms| { EndCode(ms, k, arg); }
    AllCleanLegible(env, f, seen);
    ParsedIsFound(env, f, inet, seen);
  }

  lemma EndStops(ms: seq<message>, i: nat, arg: FilterArg)
    requires i < |ms| && Ends(ms[i])
    ensures StopsAt(ms, i, arg)
  {
  }

  lemma AllCleanLegible(env: Env, f: Filter, ms: seq<message>)
    requires AllClean(env, f, ms)
    ensures AllLegible(env, f, ms)
  {
    forall i | 0 <= i < |ms| ensures Legible(env, f, false, ms[i]) { assert Clean(env, f, ms[i]); }
  }

  lemma CleanIsZero(env: Env, f: Filter, m: message, log: seq<Call>)
    requires Clean(env, f, m)
    ensures Callback(env, f).run(log, Call(0, 0, m)) == 0
  {
  }

  lemma EndCode(ms: seq<message>, k: nat, arg: FilterArg)
    requires k < |ms| && Ends(ms[k])
    ensures StopCode(ms, k, arg) == if ms[k][4..6] == [3, 0] && |ms[k]| >= 20 && ms[k][19] < 0x80 then 0 else -1
  {
  }

  // ---- Entries as the kernel builds them ------------------------------------

  lemma {:induction false} FirstAtWindow(s: bytes, end: nat, cur: nat, kind: nat)
    requires end <= |s|
    ensures FirstAt(s[..end], end, cur, kind, 0) == FirstAt(s, end, cur, kind, 0)
    decreases end - cur
  {
    if cur + RTA_HDRLEN <= end {
      Get16Within(s, 0, end, cur);
      Get16Within(s, 0, end, cur + 2);
      assert s[0..end] == s[..end];
      hide Get16, AndNot16, Align4;
      if OnAttr(s, end, cur) && cur + Align4(Get16(s, cur)) <= end {
        FirstAtWindow(s, end, cur + Align4(Get16(s, cur)), kind);
      }
    }
  }

  /** An entry built with `addattr_l` on a header and an `ndmsg` shows each field as the first
      attribute of its type that was accepted: all of them when their 16-bit fields can
      describe them, and in any case those before the first that they cannot. */
  lemma BuiltEntryFields(s: bytes, maxlen: nat, attrs: seq<Attr>, kind: nat)
    requires Building(s) && Get32(s, 0) == ATTRS && ATTRS <= |s| && maxlen <= |s| && maxlen <= MAX_INT
    ensures var (built, accepted) := AddAll(s, maxlen, attrs);
      var m, sound := built[..Get32(built, 0)], Sound(accepted);
      && IsMsg(m) && |m| >= ATTRS && m[4..ATTRS] == s[4..ATTRS]
      && (sound == accepted ==> Field(m, kind) == Lookup(accepted, kind))
      && (Lookup(sound, kind).Some? ==> Field(m, kind) == Lookup(sound, kind) == Lookup(accepted, kind))
  {
    var r := AddAll(s, maxlen, attrs);
    var built, end := r.0, Get32(r.0, 0);
    assert Aligned(ATTRS);
    LaterAppends(s, maxlen, attrs);
    BuildThenParse(s, maxlen, attrs, kind);
    Get32Within(built, 0, end, 0);
    var m := built[..end];
    hide AddAll, Get32, Holds, Aligned, Sound;
    assert built[0..end] == m;
    FirstAtWindow(built, end, ATTRS, kind);
    PayloadWindow(built, end, FirstAt(built, end, ATTRS, kind, 0));
    assert m[4..ATTRS] == s[4..ATTRS];
  }

  lemma PayloadWindow(s: bytes, end: nat, r: Option<nat>)
    requires end <= |s| && (r.Some? ==> OnAttr(s, end, r.value))
    ensures r.Some? ==> OnAttr(s[..end], end, r.value)
    ensures PayloadAt(s[..end], end, r) == PayloadAt(s, end, r)
  {
    if r.Some? {
      assert s[0..end] == s[..end];
      Get16Within(s, 0, end, r.value);
      var lo, hi := r.value + RTA_HDRLEN, r.value + Get16(s, r.value);
      assert s[..end][lo..hi] == s[lo..hi];
    }
  }
}
