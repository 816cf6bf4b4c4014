/**
 Runs of the Swift scanner (LanDeviceScanner.swift:27-77).

 The program makes a new scanner for every listener and starts it once
 (LanDeviceHandler.swift:17-31), so `OneScan` is its case. The class allows more: an object
 may be started again. For such a caller there is a list of started bodies and one handle,
 and the lemmas about starts say what holds of the class.

 A body's test-and-clear of the handle with its post is one step, as is that of
 `stopScanning`; the handle is stored before the body gets to its end. `SwiftRace` says what
 happens when the test and the clear are two steps.
 */
module SwiftRun {
  import opened ScanRange
  import opened ScanWorkers
  import opened ScanLists

  datatype Body = Body(workers: seq<Worker>, cancelled: bool, ended: bool)

  datatype Handle = Nil | Task(body: nat)

  datatype Scanner = Scanner(handle: Handle, bodies: seq<Body>, posted: seq<Event>)

  datatype Step = Start | Work(k: nat, t: nat) | Finish(k: nat) | Stop

  const IDLE := Scanner(Nil, [], [])

  function SwiftLists(ip: address32, prefix: nat): (r: seq<seq<int>>)
    requires prefix <= 32
    ensures r == Lists(ip, prefix) && |r| == (32 - prefix) * 4
  {
    hide VisitedSw, Visited;
    forall t | 0 <= t < Workers(prefix) ensures VisitedSw(ip, prefix, t) == Visited(ip, prefix, t) {
      SwiftVisits(ip, prefix, t);
    }
    seq(Workers(prefix), t requires 0 <= t < Workers(prefix) => VisitedSw(ip, prefix, t))
  }

  predicate Enabled(s: Scanner, step: Step) {
    match step
    case Start => true
    case Work(k, t) => k < |s.bodies| && t < |s.bodies[k].workers| && !Finished(s.bodies[k].workers[t])
    case Finish(k) => k < |s.bodies| && !s.bodies[k].ended && AllFinished(s.bodies[k].workers)
    case Stop => true
  }

  predicate HandleValid(s: Scanner) {
    s.handle.Task? ==> s.handle.body < |s.bodies|
  }

  function Clear(s: Scanner): Scanner {
    if s.handle.Nil? then s else s.(handle := Nil, posted := s.posted + [Null])
  }

  function Next(s: Scanner, step: Step, lists: seq<seq<int>>, reach: int -> bool): (r: Scanner)
    requires HandleValid(s) && Enabled(s, step)
    ensures HandleValid(r)
    ensures |r.bodies| == |s.bodies| + (if step.Start? then 1 else 0)
  {
    match step
    case Start => s.(handle := Task(|s.bodies|), bodies := s.bodies + [Body(Crew(lists), false, false)])
    case Work(k, t) =>
      var b := s.bodies[k];
      var w := b.workers[t];
      s.(bodies := s.bodies[k := b.(workers := b.workers[t := Advance(w, !b.cancelled, reach)])],
         posted := s.posted + Emitted(w))
    case Finish(k) => Clear(s.(bodies := s.bodies[k := s.bodies[k].(ended := true)]))
    case Stop =>
      if s.handle.Nil? then s
      else var k := s.handle.body; Clear(s.(bodies := s.bodies[k := s.bodies[k].(cancelled := true)]))
  }

  predicate Possible(s: Scanner, steps: seq<Step>, lists: seq<seq<int>>, reach: int -> bool)
    requires HandleValid(s)
    decreases |steps|
  {
    steps == [] ||
    (Enabled(s, steps[0]) && Possible(Next(s, steps[0], lists, reach), steps[1..], lists, reach))
  }

  function After(s: Scanner, steps: seq<Step>, lists: seq<seq<int>>, reach: int -> bool): (r: Scanner)
    requires HandleValid(s) && Possible(s, steps, lists, reach)
    ensures HandleValid(r)
    decreases |steps|
  {
    if steps == [] then s else After(Next(s, steps[0], lists, reach), steps[1..], lists, reach)
  }

  /** Nothing orders the steps of different workers, starts, stops, and the ends of bodies whose workers
      are through: each may come next. */
  lemma Interleaves(s: Scanner)
    ensures Enabled(s, Start) && Enabled(s, Stop)
    ensures forall k: nat, t: nat | k < |s.bodies| && t < |s.bodies[k].workers| ::
              s.bodies[k].workers[t].todo != [] ==> Enabled(s, Work(k, t))
    ensures forall k: nat | k < |s.bodies| && !s.bodies[k].ended ::
              AllFinished(s.bodies[k].workers) ==> Enabled(s, Finish(k))
  {
  }

  // ---- Nils and starts ------------------------------------------------------------

  function Live(s: Scanner): nat {
    if s.handle.Task? then 1 else 0
  }

  /** The starts of a run that find no handle. */
  function Opened(s: Scanner, steps: seq<Step>, lists: seq<seq<int>>, reach: int -> bool): nat
    requires HandleValid(s) && Possible(s, steps, lists, reach)
    decreases |steps|
  {
    if steps == [] then 0
    else (if steps[0].Start? && s.handle.Nil? then 1 else 0) +
         Opened(Next(s, steps[0], lists, reach), steps[1..], lists, reach)
  }

  lemma NextNils(s: Scanner, step: Step, lists: seq<seq<int>>, reach: int -> bool)
    requires HandleValid(s) && Enabled(s, step)
    ensures Count(Next(s, step, lists, reach).posted, Null) + Live(Next(s, step, lists, reach))
         == Count(s.posted, Null) + Live(s) + (if step.Start? && s.handle.Nil? then 1 else 0)
  {
    CountAppend(s.posted, [Null], Null);
    if step.Work? { CountAppend(s.posted, Emitted(s.bodies[step.k].workers[step.t]), Null); }
    assert Count([Null], Null) == 1;
    hide Count, Advance;
  }

  /** However starts, stops and ends interleave: a nil is posted, or a handle is still there,
      for every start that found none. */
  lemma {:induction false} NilsAreConserved(s: Scanner, steps: seq<Step>, lists: seq<seq<int>>, reach: int -> bool)
    requires HandleValid(s) && Possible(s, steps, lists, reach)
    ensures Count(After(s, steps, lists, reach).posted, Null) + Live(After(s, steps, lists, reach))
         == Count(s.posted, Null) + Live(s) + Opened(s, steps, lists, reach)
    decreases |steps|
  {
    hide Next, Enabled, Count, Live, HandleValid;
    if steps != [] {
      NextNils(s, steps[0], lists, reach);
      NilsAreConserved(Next(s, steps[0], lists, reach), steps[1..], lists, reach);
    }
  }

  // ---- Starting only when earlier bodies have ended -----------------------------------

  predicate AllEnded(s: Scanner) {
    forall k :: 0 <= k < |s.bodies| ==> s.bodies[k].ended
  }

  /** Every start of the run is made when no earlier body is still running. */
  predicate Orderly(s: Scanner, steps: seq<Step>, lists: seq<seq<int>>, reach: int -> bool)
    requires HandleValid(s) && Possible(s, steps, lists, reach)
    decreases |steps|
  {
    steps == [] ||
    ((steps[0].Start? ==> AllEnded(s)) && Orderly(Next(s, steps[0], lists, reach), steps[1..], lists, reach))
  }

  /** The handle is that of the last body, which has not ended; no other body is running. */
  predicate Owned(s: Scanner) {
    && HandleValid(s)
    && (forall k :: 0 <= k < |s.bodies| - 1 ==> s.bodies[k].ended)
    && (s.handle.Task? ==> s.handle.body == |s.bodies| - 1 && !s.bodies[|s.bodies| - 1].ended)
  }

  lemma NextOwned(s: Scanner, step: Step, lists: seq<seq<int>>, reach: int -> bool)
    requires Owned(s) && Enabled(s, step) && (step.Start? ==> AllEnded(s))
    ensures Owned(Next(s, step, lists, reach))
    ensures step.Start? ==> s.handle.Nil?
    ensures step.Finish? ==> s.handle == Nil || s.handle == Task(step.k)
  {
    hide Advance, Crew;
  }

  /** In an orderly run each body clears no handle but its own, and each start is answered by
      one nil, or its handle is still there. */
  lemma {:induction false} OrderlyRun(s: Scanner, steps: seq<Step>, lists: seq<seq<int>>, reach: int -> bool)
    requires HandleValid(s) && Possible(s, steps, lists, reach)
    requires Owned(s) && Orderly(s, steps, lists, reach)
    ensures Owned(After(s, steps, lists, reach))
    ensures Opened(s, steps, lists, reach) == Count(steps, Start)
    ensures forall i :: 0 <= i < |steps| && steps[i].Finish? ==> ClearsOwn(s, steps, i, lists, reach)
    decreases |steps|
  {
    if steps != [] {
      NextOwned(s, steps[0], lists, reach);
      var next, rest := Next(s, steps[0], lists, reach), steps[1..];
      hide Next, Enabled, Owned, HandleValid, AllEnded;
      OrderlyRun(next, rest, lists, reach);
      forall i | 0 <= i < |steps| && steps[i].Finish? ensures ClearsOwn(s, steps, i, lists, reach) {
        if i > 0 {
          assert rest[i - 1] == steps[i];
          assert ClearsOwn(next, rest, i - 1, lists, reach);
        }
      }
    }
  }

  /** The `i`th step of the run, the end of a body, meets that body's handle or none. */
  predicate ClearsOwn(s: Scanner, steps: seq<Step>, i: nat, lists: seq<seq<int>>, reach: int -> bool)
    requires HandleValid(s) && Possible(s, steps, lists, reach) && i < |steps| && steps[i].Finish?
    decreases |steps|
  {
    if i == 0 then s.handle == Nil || s.handle == Task(steps[0].k)
    else ClearsOwn(Next(s, steps[0], lists, reach), steps[1..], i - 1, lists, reach)
  }

  // ---- Starting while an earlier body is running ---------------------------------------

  /** The workers of body `k` can be run to their end with nothing else changing. */
  lemma {:induction false} Drain(s: Scanner, k: nat, lists: seq<seq<int>>, reach: int -> bool)
    returns (steps: seq<Step>)
    requires HandleValid(s) && k < |s.bodies| && AllSound(s.bodies[k].workers, reach)
    ensures Possible(s, steps, lists, reach)
    ensures var end := After(s, steps, lists, reach);
            && end.handle == s.handle && |end.bodies| == |s.bodies|
            && (forall j :: 0 <= j < |s.bodies| && j != k ==> end.bodies[j] == s.bodies[j])
            && end.bodies[k].ended == s.bodies[k].ended
            && AllFinished(end.bodies[k].workers)
    decreases TotalWork(s.bodies[k].workers)
  {
    var workers := s.bodies[k].workers;
    if AllFinished(workers) {
      steps := [];
    } else {
      var t := SomeWorkerSteps(workers);
      WorkIsNatural(workers, reach);
      StepCounts(workers, s.posted, t, !s.bodies[k].cancelled, reach, 0);
      hide Advance, Emitted, AllFinished, AllSound, TotalWork;
      var next := Next(s, Work(k, t), lists, reach);
      WorkIsNatural(next.bodies[k].workers, reach);
      var rest := Drain(next, k, lists, reach);
      steps := [Work(k, t)] + rest;
      assert steps[1..] == rest;
    }
  }

  /** If a start is made while body `k` is running, there is a run in which the end of body `k`
      posts the nil and clears the handle of the new body, which goes on and which no stop
      can cancel any more. */
  lemma PrematureNil(s: Scanner, k: nat, lists: seq<seq<int>>, reach: int -> bool) returns (steps: seq<Step>)
    requires HandleValid(s) && k < |s.bodies| && !s.bodies[k].ended && AllSound(s.bodies[k].workers, reach)
    ensures var started := Next(s, Start, lists, reach);
            && Possible(started, steps, lists, reach)
            && var before := After(started, steps, lists, reach);
            && Enabled(before, Finish(k)) && before.handle == Task(|s.bodies|)
            && var after := Next(before, Finish(k), lists, reach);
            && after.posted == before.posted + [Null] && after.handle == Nil
            && after.bodies[|s.bodies|] == Body(Crew(lists), false, false)
            && Next(after, Stop, lists, reach) == after
  {
    hide AllSound, AllFinished, Crew;
    var started := Next(s, Start, lists, reach);
    assert started.bodies[k] == s.bodies[k];
    assert started.bodies[|s.bodies|] == Body(Crew(lists), false, false);
    steps := Drain(started, k, lists, reach);
  }

  // ---- The stream of one scan -----------------------------------------------------------

  function Started(ip: address32, prefix: nat): (r: Scanner)
    requires prefix <= 32
    ensures HandleValid(r)
  {
    Scanner(Task(0), [Body(Crew(SwiftLists(ip, prefix)), false, false)], [])
  }

  lemma StartedIsNext(ip: address32, prefix: nat, reach: int -> bool)
    requires prefix <= 32
    ensures Next(IDLE, Start, SwiftLists(ip, prefix), reach) == Started(ip, prefix)
  {
  }

  predicate OneBody(s: Scanner) {
    && HandleValid(s) && |s.bodies| == 1
    && (s.bodies[0].ended ==> s.handle.Nil? && AllFinished(s.bodies[0].workers))
  }

  /** Until the scan is stopped. */
  predicate Unstopped(s: Scanner) {
    && OneBody(s) && !s.bodies[0].cancelled && (s.handle.Nil? ==> s.bodies[0].ended)
    && (s.handle.Nil? ==> s.posted != [] && s.posted[|s.posted| - 1] == Null)
  }

  predicate Accounted(s: Scanner, reach: int -> bool, a: int, start: nat) {
    && OneBody(s)
    && var workers := s.bodies[0].workers;
    && AllSound(workers, reach)
    && Pending(workers, a) + Count(s.posted, Host(a)) <= start
    && (!reach(a) ==> Count(s.posted, Host(a)) == 0)
    && (!s.bodies[0].cancelled && reach(a) ==> Pending(workers, a) + Count(s.posted, Host(a)) == start)
  }

  lemma NextOneBody(s: Scanner, step: Step, lists: seq<seq<int>>, reach: int -> bool)
    requires OneBody(s) && Enabled(s, step) && !step.Start?
    ensures OneBody(Next(s, step, lists, reach))
    ensures s.handle.Nil? ==> Next(s, step, lists, reach).handle.Nil?
    ensures step.Stop? ==> Next(s, step, lists, reach).handle.Nil?
    ensures Unstopped(s) && !step.Stop? ==> Unstopped(Next(s, step, lists, reach))
  {
    hide Advance;
    if step.Work? { StillRunning(s.bodies[0].workers, step.t); }
  }

  lemma StillRunning(workers: seq<Worker>, t: nat)
    requires t < |workers| && !Finished(workers[t])
    ensures !AllFinished(workers)
  {
  }

  lemma NextAccounted(s: Scanner, step: Step, lists: seq<seq<int>>, reach: int -> bool, a: int, start: nat)
    requires Enabled(s, step) && !step.Start? && Accounted(s, reach, a, start)
    ensures Accounted(Next(s, step, lists, reach), reach, a, start)
  {
    NextOneBody(s, step, lists, reach);
    CountAppend(s.posted, [Null], Host(a));
    assert Count([Null], Host(a)) == 0;
    hide OneBody, Count, Pending, Advance, Emitted, AllSound, AllFinished;
    assert |s.bodies| == 1 && |Next(s, step, lists, reach).bodies| == 1;
    if step.Work? {
      StepCounts(s.bodies[0].workers, s.posted, step.t, !s.bodies[0].cancelled, reach, a);
    }
  }

  lemma {:induction false} RunAccounted(s: Scanner, steps: seq<Step>, lists: seq<seq<int>>, reach: int -> bool,
                                        a: int, start: nat)
    requires HandleValid(s) && Possible(s, steps, lists, reach) && Start !in steps
    requires Accounted(s, reach, a, start)
    ensures Accounted(After(s, steps, lists, reach), reach, a, start)
    decreases |steps|
  {
    hide Next, Enabled, Accounted, HandleValid;
    if steps != [] {
      NextAccounted(s, steps[0], lists, reach, a, start);
      RunAccounted(Next(s, steps[0], lists, reach), steps[1..], lists, reach, a, start);
    }
  }

  /** What a run of one body comes to, by its steps. */
  lemma {:induction false} RunOneBody(s: Scanner, steps: seq<Step>, lists: seq<seq<int>>, reach: int -> bool)
    requires OneBody(s) && Possible(s, steps, lists, reach) && Start !in steps
    ensures s.handle.Nil? || Stop in steps ==> After(s, steps, lists, reach).handle.Nil?
    ensures Unstopped(s) && Stop !in steps ==> Unstopped(After(s, steps, lists, reach))
    ensures Opened(s, steps, lists, reach) == 0
    decreases |steps|
  {
    if steps != [] {
      NextOneBody(s, steps[0], lists, reach);
      hide Next, Enabled, OneBody, HandleValid, Unstopped;
      RunOneBody(Next(s, steps[0], lists, reach), steps[1..], lists, reach);
      HeadOrTail(steps, Stop);
    }
  }

  lemma HeadOrTail<T>(s: seq<T>, x: T)
    requires s != []
    ensures x in s <==> s[0] == x || x in s[1..]
  {
  }

  lemma StartAccounted(ip: address32, prefix: nat, reach: int -> bool, a: int)
    requires prefix <= 32
    ensures Accounted(Started(ip, prefix), reach, a, if IsHostOf(ip, prefix, a) then 1 else 0)
    ensures Unstopped(Started(ip, prefix))
  {
    StartCount(ip, prefix, a);
    assert Count<Event>([], Host(a)) == 0;
    hide Pending, Count, IsHostOf, SwiftLists;
  }

  /** One start, then any interleaving of the workers, the end and any number of stops: one
      nil exactly, as soon as the scan is stopped or its body has ended, and none before.
      No host is posted twice, or when it did not answer, or from outside the subnet.
      Without a stop the nil comes last, and every host that answers comes before it. */
  lemma OneScan(ip: address32, prefix: nat, steps: seq<Step>, reach: int -> bool)
    requires prefix <= 32 && steps != [] && steps[0] == Start && Start !in steps[1..]
    requires Possible(IDLE, steps, SwiftLists(ip, prefix), reach)
    ensures var end := After(IDLE, steps, SwiftLists(ip, prefix), reach);
            && |end.bodies| == 1
            && Count(end.posted, Null) == (if Stop in steps || end.bodies[0].ended then 1 else 0)
            && (forall a :: Count(end.posted, Host(a)) <= if IsHostOf(ip, prefix, a) && reach(a) then 1 else 0)
            && (end.bodies[0].ended && Stop !in steps ==>
                  && end.posted != [] && end.posted[|end.posted| - 1] == Null
                  && forall a :: IsHostOf(ip, prefix, a) && reach(a) ==> Host(a) in end.posted)
  {
    var lists, start, rest := SwiftLists(ip, prefix), Started(ip, prefix), steps[1..];
    StartedIsNext(ip, prefix, reach);
    var end := After(start, rest, lists, reach);
    NilsAreConserved(start, rest, lists, reach);
    RunOf(ip, prefix, rest, reach, 0);
    HeadOrTail(steps, Stop);
    assert Count(start.posted, Null) == 0 && Live(start) == 1;
    hide Started, After, Next, Possible, IsHostOf, Count, SwiftLists, Opened;
    forall a ensures Count(end.posted, Host(a)) <= if IsHostOf(ip, prefix, a) && reach(a) then 1 else 0
      ensures end.bodies[0].ended && Stop !in steps && IsHostOf(ip, prefix, a) && reach(a) ==> Host(a) in end.posted
    {
      RunOf(ip, prefix, rest, reach, a);
      CountIn(end.posted, Host(a));
    }
  }

  lemma RunOf(ip: address32, prefix: nat, steps: seq<Step>, reach: int -> bool, a: int)
    requires prefix <= 32 && Start !in steps
    requires Possible(Started(ip, prefix), steps, SwiftLists(ip, prefix), reach)
    ensures var end := After(Started(ip, prefix), steps, SwiftLists(ip, prefix), reach);
            && OneBody(end) && (Stop in steps ==> end.handle.Nil?) && (Stop !in steps ==> Unstopped(end))
            && Opened(Started(ip, prefix), steps, SwiftLists(ip, prefix), reach) == 0
            && Count(end.posted, Host(a)) <= (if IsHostOf(ip, prefix, a) && reach(a) then 1 else 0)
            && (end.bodies[0].ended && Stop !in steps && IsHostOf(ip, prefix, a) && reach(a) ==>
                  Count(end.posted, Host(a)) == 1)
  {
    hide Started, After, Next, Possible, IsHostOf, Count, Pending, SwiftLists, Opened;
    StartAccounted(ip, prefix, reach, a);
    var once := if IsHostOf(ip, prefix, a) then 1 else 0;
    RunAccounted(Started(ip, prefix), steps, SwiftLists(ip, prefix), reach, a, once);
    RunOneBody(Started(ip, prefix), steps, SwiftLists(ip, prefix), reach);
    var end := After(Started(ip, prefix), steps, SwiftLists(ip, prefix), reach);
    assert Accounted(end, reach, a, once);
    if end.bodies[0].ended { NothingPending(end.bodies[0].workers, a); }
  }

  // ---- After a stop -----------------------------------------------------------------------

  /** How often a run has body `k` post the address. */
  function HostsBy(s: Scanner, steps: seq<Step>, k: nat, lists: seq<seq<int>>, reach: int -> bool, a: int): nat
    requires HandleValid(s) && Possible(s, steps, lists, reach)
    decreases |steps|
  {
    if steps == [] then 0
    else (if steps[0].Work? && steps[0].k == k
          then Count(Emitted(s.bodies[k].workers[steps[0].t]), Host(a)) else 0) +
         HostsBy(Next(s, steps[0], lists, reach), steps[1..], k, lists, reach, a)
  }

  function WorkSteps(steps: seq<Step>, k: nat): nat {
    if steps == [] then 0 else (if steps[0].Work? && steps[0].k == k then 1 else 0) + WorkSteps(steps[1..], k)
  }

  lemma CancelledNext(s: Scanner, step: Step, k: nat, lists: seq<seq<int>>, reach: int -> bool, a: int)
    requires HandleValid(s) && Enabled(s, step) && k < |s.bodies| && s.bodies[k].cancelled
    ensures var next := Next(s, step, lists, reach);
            && next.bodies[k].cancelled
            && (if step.Work? && step.k == k then
                  && Count(Emitted(s.bodies[k].workers[step.t]), Host(a)) + OnTheWay(next.bodies[k].workers, a)
                     == OnTheWay(s.bodies[k].workers, a)
                  && TotalStepsLeft(next.bodies[k].workers) < TotalStepsLeft(s.bodies[k].workers)
                else next.bodies[k].workers == s.bodies[k].workers)
  {
    hide Count, OnTheWay, TotalStepsLeft, Crew, AllFinished;
    if step.Work? && step.k == k {
      StoppedCrew(s.bodies[k].workers, [], step.t, reach, a);
      NoHost(a);
      CountAppend([], Emitted(s.bodies[k].workers[step.t]), Host(a));
      hide Advance, Emitted;
    }
  }

  lemma NoHost(a: int)
    ensures Count<Event>([], Host(a)) == 0
  {
  }

  /** A cancelled body, whatever else the scanner does: it posts an address only by the workers that
      were already past their last look at the flag with it, once by each, and its workers make at
      most two steps each on average. */
  lemma {:induction false} CancelledBody(
      s: Scanner, steps: seq<Step>, k: nat, lists: seq<seq<int>>, reach: int -> bool, a: int)
    requires HandleValid(s) && Possible(s, steps, lists, reach) && k < |s.bodies| && s.bodies[k].cancelled
    ensures var end := After(s, steps, lists, reach);
            && |end.bodies| > k
            && HostsBy(s, steps, k, lists, reach, a) + OnTheWay(end.bodies[k].workers, a)
               == OnTheWay(s.bodies[k].workers, a)
            && WorkSteps(steps, k) <= TotalStepsLeft(s.bodies[k].workers)
    decreases |steps|
  {
    hide Next, Enabled, Count, Emitted, OnTheWay, TotalStepsLeft, HandleValid;
    if steps != [] {
      CancelledNext(s, steps[0], k, lists, reach, a);
      CancelledBody(Next(s, steps[0], lists, reach), steps[1..], k, lists, reach, a);
    }
  }

  /** A stop of the class cancels the body of the handle, which heeds it. */
  lemma StopCancels(s: Scanner, steps: seq<Step>, lists: seq<seq<int>>, reach: int -> bool, a: int)
    requires HandleValid(s) && s.handle.Task? && Possible(s, [Stop] + steps, lists, reach)
    ensures var k := s.handle.body;
            && HostsBy(s, [Stop] + steps, k, lists, reach, a) <= OnTheWay(s.bodies[k].workers, a)
            && WorkSteps(steps, k) <= 2 * |s.bodies[k].workers|
  {
    assert ([Stop] + steps)[1..] == steps;
    var next := Next(s, Stop, lists, reach);
    var b := s.bodies[s.handle.body];
    assert next.bodies[s.handle.body].cancelled && next.bodies[s.handle.body].workers == b.workers;
    hide Next, Enabled, Count, Emitted, OnTheWay, TotalStepsLeft, HandleValid, WorkSteps;
    CancelledBody(next, steps, s.handle.body, lists, reach, a);
  }

  /** One body, and the scan has been stopped or is through. */
  predicate Quiet(s: Scanner) {
    OneBody(s) && (s.bodies[0].cancelled || s.bodies[0].ended)
  }

  predicate QuietOnceCleared(s: Scanner) {
    OneBody(s) && (s.handle.Nil? ==> Quiet(s))
  }

  lemma NextQuiet(s: Scanner, step: Step, lists: seq<seq<int>>, reach: int -> bool)
    requires QuietOnceCleared(s) && Enabled(s, step) && !step.Start?
    ensures QuietOnceCleared(Next(s, step, lists, reach))
    ensures Quiet(s) || step.Stop? ==> Quiet(Next(s, step, lists, reach))
  {
    NextOneBody(s, step, lists, reach);
    hide Advance, AllFinished, OneBody;
    assert |s.bodies| == 1 && HandleValid(s) by { OneIsOne(s); }
  }

  lemma OneIsOne(s: Scanner)
    requires OneBody(s)
    ensures |s.bodies| == 1 && HandleValid(s)
  {
  }

  lemma {:induction false} RunQuiet(s: Scanner, steps: seq<Step>, lists: seq<seq<int>>, reach: int -> bool)
    requires QuietOnceCleared(s) && Possible(s, steps, lists, reach) && Start !in steps
    ensures QuietOnceCleared(After(s, steps, lists, reach))
    decreases |steps|
  {
    if steps != [] {
      NextQuiet(s, steps[0], lists, reach);
      hide Next, Enabled, HandleValid, QuietOnceCleared;
      RunQuiet(Next(s, steps[0], lists, reach), steps[1..], lists, reach);
    }
  }

  lemma QuietNext(s: Scanner, step: Step, lists: seq<seq<int>>, reach: int -> bool, reach': int -> bool, a: int)
    requires Quiet(s) && Enabled(s, step) && !step.Start?
    ensures var next := Next(s, step, lists, reach);
            && Quiet(next) && next == Next(s, step, lists, reach')
            && Count(next.posted, Host(a)) + OnTheWay(next.bodies[0].workers, a)
               == Count(s.posted, Host(a)) + OnTheWay(s.bodies[0].workers, a)
            && TotalStepsLeft(next.bodies[0].workers)
               <= TotalStepsLeft(s.bodies[0].workers) - (if step.Work? then 1 else 0)
  {
    NextQuiet(s, step, lists, reach);
    CountAppend(s.posted, [Null], Host(a));
    NilIsNoHost(a);
    if step.Work? {
      StillRunning(s.bodies[0].workers, step.t);
      StoppedCrew(s.bodies[0].workers, s.posted, step.t, reach, a);
      StoppedStep(s.bodies[0].workers[step.t], reach, reach', a);
    }
    hide Advance, AllFinished, Count, Emitted, OnTheWay, TotalStepsLeft;
  }

  lemma NilIsNoHost(a: int)
    ensures Count([Null], Host(a)) == 0
  {
  }

  lemma {:induction false} QuietRun(
      s: Scanner, steps: seq<Step>, lists: seq<seq<int>>, reach: int -> bool, reach': int -> bool, a: int)
    requires Quiet(s) && Possible(s, steps, lists, reach) && Start !in steps
    ensures var end := After(s, steps, lists, reach);
            && Possible(s, steps, lists, reach') && After(s, steps, lists, reach') == end && Quiet(end)
            && Count(end.posted, Host(a)) + OnTheWay(end.bodies[0].workers, a)
               == Count(s.posted, Host(a)) + OnTheWay(s.bodies[0].workers, a)
            && WorkSteps(steps, 0) <= TotalStepsLeft(s.bodies[0].workers)
    decreases |steps|
  {
    if steps != [] {
      QuietNext(s, steps[0], lists, reach, reach', a);
      hide Next, Enabled, HandleValid, Count, OnTheWay, TotalStepsLeft;
      QuietRun(Next(s, steps[0], lists, reach), steps[1..], lists, reach, reach', a);
    }
  }

  /** The case of the program: one start, and a stop at any point. Afterwards an address is posted
      only by the workers that were already past their last look at the flag with it, once by
      each; the workers make at most two steps each on average, and none of them pings: the rest
      of the run is the same whoever answers. */
  lemma OneScanHeedsStop(
      ip: address32, prefix: nat, before: seq<Step>, after: seq<Step>, reach: int -> bool, reach': int -> bool, a: int)
    requires prefix <= 32 && Start !in before && Start !in after
    requires Possible(Started(ip, prefix), before, SwiftLists(ip, prefix), reach)
    requires Possible(After(Started(ip, prefix), before, SwiftLists(ip, prefix), reach), [Stop] + after,
                      SwiftLists(ip, prefix), reach)
    ensures var lists := SwiftLists(ip, prefix);
            var atStop := After(Started(ip, prefix), before, lists, reach);
            var end := After(atStop, [Stop] + after, lists, reach);
            && |atStop.bodies| == |end.bodies| == 1
            && Count(end.posted, Host(a)) <= Count(atStop.posted, Host(a)) + OnTheWay(atStop.bodies[0].workers, a)
            && (AllFinished(end.bodies[0].workers) ==>
                  Count(end.posted, Host(a)) == Count(atStop.posted, Host(a)) + OnTheWay(atStop.bodies[0].workers, a))
            && WorkSteps(after, 0) <= 2 * |atStop.bodies[0].workers|
            && Possible(atStop, [Stop] + after, lists, reach') && After(atStop, [Stop] + after, lists, reach') == end
  {
    var lists, start := SwiftLists(ip, prefix), Started(ip, prefix);
    RunQuiet(start, before, lists, reach);
    var atStop, steps := After(start, before, lists, reach), [Stop] + after;
    assert steps[0] == Stop && steps[1..] == after;
    StopNow(atStop, lists, reach, reach', a);
    hide Started, SwiftLists, Next, Enabled, Count, OnTheWay, TotalStepsLeft, QuietOnceCleared;
    var stopped := Next(atStop, Stop, lists, reach);
    QuietRun(stopped, after, lists, reach, reach', a);
    var end := After(stopped, after, lists, reach);
    if AllFinished(end.bodies[0].workers) { NoneOnTheWay(end.bodies[0].workers, a); }
  }

  lemma StopNow(s: Scanner, lists: seq<seq<int>>, reach: int -> bool, reach': int -> bool, a: int)
    requires QuietOnceCleared(s)
    ensures var next := Next(s, Stop, lists, reach);
            && Quiet(next) && next == Next(s, Stop, lists, reach')
            && |s.bodies| == 1 && next.bodies[0].workers == s.bodies[0].workers
            && Count(next.posted, Host(a)) == Count(s.posted, Host(a))
  {
    NextQuiet(s, Stop, lists, reach);
    CountAppend(s.posted, [Null], Host(a));
    NilIsNoHost(a);
    hide Count, AllFinished;
  }
}
