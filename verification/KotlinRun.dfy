/**
 A run of the Kotlin scanner (LanDeviceScanner.kt:62-162).

 `active` is what a worker's `isActive` reads; `cancelled` is the state of the job itself.
 The timeout cancels the workers only; `stopScanning` cancels the job and with it the
 workers, and posts a null of its own. The body goes on when all workers have ended.

 On the older Android versions a worker's probe posts nothing (`Posts`).
 The body then reads the neighbour table, and each host in it has a coroutine that
 posts it unless the job has been cancelled when it looks.
 */
module KotlinRun {
  import ArpTable
  import opened ScanRange
  import opened ScanWorkers
  import opened ScanLists

  /** Scanning; past `withTimeout`; the coroutines of the table's hosts running, and all
      ended; past the last `isActive`; null posted; ended without a null; failed because an
      address had no four bytes. */
  datatype Phase = Scanning | Joined | Serving | Served | Announcing | Announced | Ended | Failed

  /** A coroutine of a host of the table: before its `isActive`, past it, or ended. */
  datatype Task = Waiting | Ready | Gone

  datatype Scan = Scan(workers: seq<Worker>, active: bool, cancelled: bool, phase: Phase, posted: seq<Event>,
                       older: bool, table: seq<ArpTable.Host>, tasks: seq<Task>)

  datatype Step =
    | Work(t: nat) | Timeout | Join
    | ReadTable | Serve(i: nat) | Gather
    | Check | Announce | Stop

  /** The addresses of each worker, as unsigned numbers. */
  function ListsKt(ipv4: int, prefix: nat): (r: seq<seq<int>>)
    requires prefix <= 32
    ensures |r| == (32 - prefix) * 4
    ensures forall t :: 0 <= t < |r| ==> r[t] == AsUnsigned(VisitedKt(ipv4, prefix, t))
  {
    seq(ScanRange.Workers(prefix), t requires 0 <= t < ScanRange.Workers(prefix) =>
      AsUnsigned(VisitedKt(ipv4, prefix, t)))
  }

  /** `older` is the branch on the Android version, `table` what the parser makes of the table. */
  function Start(ipv4: int, prefix: nat, older: bool, table: seq<ArpTable.Host>): Scan
    requires IsInt(ipv4) && prefix <= 32
  {
    Scan(Crew(ListsKt(ipv4, prefix)), true, false, Scanning, [], older, table, [])
  }

  /** Which addresses a worker posts an event for. On the older versions the connection is
      only made for its effect on the neighbour table. */
  function Posts(older: bool, reach: int -> bool): int -> bool {
    if older then Silent else reach
  }

  predicate Silent(a: int) {
    false
  }

  predicate Addressable(a: int) {
    |MinBytes(ToInt(a))| == 4
  }

  predicate AllGone(tasks: seq<Task>) {
    forall i :: 0 <= i < |tasks| ==> tasks[i].Gone?
  }

  predicate Enabled(s: Scan, step: Step) {
    match step
    case Work(t) => t < |s.workers| && !Finished(s.workers[t])
    case Timeout => s.phase.Scanning? && s.active
    case Join => s.phase.Scanning? && AllFinished(s.workers)
    case ReadTable => s.phase.Joined? && s.older
    case Serve(i) => s.phase.Serving? && i < |s.tasks| && i < |s.table| && !s.tasks[i].Gone?
    case Gather => s.phase.Serving? && AllGone(s.tasks)
    case Check => if s.older then s.phase.Served? else s.phase.Joined?
    case Announce => s.phase.Announcing?
    case Stop => true
  }

  function Next(s: Scan, step: Step, reach: int -> bool): Scan
    requires Enabled(s, step)
  {
    match step
    case Work(t) =>
      var w := s.workers[t];
      if s.active && w.stage.Looping? && !Addressable(w.todo[0]) then
        s.(active := false, phase := Failed, workers := s.workers[t := Worker(Looping, [])])
      else
        s.(workers := s.workers[t := Advance(w, s.active, Posts(s.older, reach))], posted := s.posted + Emitted(w))
    case ReadTable => s.(phase := Serving, tasks := seq(|s.table|, _ => Waiting))
    case Serve(i) =>
      (match s.tasks[i]
       case Ready => s.(tasks := s.tasks[i := Gone], posted := s.posted + [Entry(s.table[i])])
       case _ => s.(tasks := s.tasks[i := if s.cancelled then Gone else Ready]))
    case Gather => s.(phase := Served)
    case Timeout => s.(active := false)
    case Join => s.(phase := if s.cancelled then Ended else Joined)
    case Check => s.(phase := if s.cancelled then Ended else Announcing)
    case Announce => s.(phase := Announced, posted := s.posted + [Null])
    case Stop => s.(active := false, cancelled := true, posted := s.posted + [Null])
  }

  predicate Possible(s: Scan, steps: seq<Step>, reach: int -> bool)
    decreases |steps|
  {
    steps == [] || (Enabled(s, steps[0]) && Possible(Next(s, steps[0], reach), steps[1..], reach))
  }

  function After(s: Scan, steps: seq<Step>, reach: int -> bool): Scan
    requires Possible(s, steps, reach)
    decreases |steps|
  {
    if steps == [] then s else After(Next(s, steps[0], reach), steps[1..], reach)
  }

  // ---- What every step keeps ------------------------------------------------------

  /** Only an address with four bytes can be probed, so only such an address answers. */
  ghost predicate Probeable(reach: int -> bool) {
    forall a :: reach(a) ==> Addressable(a)
  }

  /** Address `a`, which was on the lists `start` times, is at most once too few accounted for. */
  predicate Accounted(s: Scan, reach: int -> bool, a: int, start: nat) {
    && AllSound(s.workers, Posts(s.older, reach))
    && Pending(s.workers, a) + Count(s.posted, Host(a)) <= start
    && (s.older || !reach(a) ==> Count(s.posted, Host(a)) == 0)
    && (s.active && ((!s.older && reach(a)) || !Addressable(a)) ==>
          Pending(s.workers, a) + Count(s.posted, Host(a)) == start)
    && (s.phase.Scanning? || s.phase.Failed? || AllFinished(s.workers))
  }

  lemma WorkKeeps(s: Scan, t: nat, reach: int -> bool, a: int, start: nat)
    requires Probeable(reach) && Enabled(s, Step.Work(t)) && Accounted(s, reach, a, start)
    ensures Accounted(Next(s, Step.Work(t), reach), reach, a, start)
    ensures Count(Next(s, Step.Work(t), reach).posted, Null) == Count(s.posted, Null)
    ensures TotalWork(Next(s, Step.Work(t), reach).workers) < TotalWork(s.workers)
  {
    var w, posts := s.workers[t], Posts(s.older, reach);
    assert Sound(w, posts);
    NoneFinished(s.workers, t);
    if s.active && w.stage.Looping? && !Addressable(w.todo[0]) {
      hide Pending, TotalWork, Addressable, Count;
      DropCounts(s.workers, t, posts, a);
    } else {
      StepCounts(s.workers, s.posted, t, s.active, posts, a);
      hide Pending, TotalWork, Addressable, Advance, Emitted, Count;
      assert s.active ==> Addressable(w.todo[0]);
    }
  }

  lemma NoneFinished(workers: seq<Worker>, t: nat)
    requires t < |workers| && !Finished(workers[t])
    ensures !AllFinished(workers)
  {
  }

  /** A failing worker gives up the rest of its list. */
  lemma DropCounts(workers: seq<Worker>, t: nat, reach: int -> bool, a: int)
    requires t < |workers| && !Finished(workers[t]) && AllSound(workers, reach)
    ensures var after := workers[t := Worker(Looping, [])];
            && AllSound(after, reach) && Pending(after, a) <= Pending(workers, a)
            && TotalWork(after) < TotalWork(workers)
  {
    var ended := Worker(Looping, []);
    assert Sound(workers[t], reach);
    PendingUpdate(workers, t, ended, a);
    TotalWorkUpdate(workers, t, ended);
    hide Pending, TotalWork;
  }

  lemma EntryPosted(posted: seq<Event>, h: ArpTable.Host)
    ensures Count(posted + [Entry(h)], Null) == Count(posted, Null)
    ensures forall a :: Count(posted + [Entry(h)], Host(a)) == Count(posted, Host(a))
    ensures forall g :: Count(posted + [Entry(h)], Entry(g)) == Count(posted, Entry(g)) + if g == h then 1 else 0
  {
    assert forall e: Event :: Count([Entry(h)], e) == if e == Entry(h) then 1 else 0;
    forall e: Event ensures Count(posted + [Entry(h)], e) == Count(posted, e) + Count([Entry(h)], e) {
      CountAppend(posted, [Entry(h)], e);
    }
  }

  lemma NextKeeps(s: Scan, step: Step, reach: int -> bool, a: int, start: nat)
    requires Probeable(reach) && Enabled(s, step) && Accounted(s, reach, a, start)
    ensures Accounted(Next(s, step, reach), reach, a, start)
  {
    if step.Work? {
      hide Next, Accounted, Enabled, Probeable;
      WorkKeeps(s, step.t, reach, a, start);
    } else {
      CountAppend(s.posted, [Null], Host(a));
      assert Count([Null], Host(a)) == 0;
      if step.Serve? { EntryPosted(s.posted, s.table[step.i]); }
      hide Pending, Count, Addressable, AllSound, AllFinished;
    }
  }

  lemma {:induction false} RunKeeps(s: Scan, steps: seq<Step>, reach: int -> bool, a: int, start: nat)
    requires Probeable(reach) && Possible(s, steps, reach) && Accounted(s, reach, a, start)
    ensures Accounted(After(s, steps, reach), reach, a, start)
    decreases |steps|
  {
    hide Next, Accounted, Enabled, Probeable;
    if steps != [] {
      NextKeeps(s, steps[0], reach, a, start);
      RunKeeps(Next(s, steps[0], reach), steps[1..], reach, a, start);
    }
  }

  lemma {:induction false} RunOlder(s: Scan, steps: seq<Step>, reach: int -> bool)
    requires Possible(s, steps, reach)
    ensures After(s, steps, reach).older == s.older
    decreases |steps|
  {
    if steps != [] {
      RunOlder(Next(s, steps[0], reach), steps[1..], reach);
      hide Advance, Emitted, Addressable;
    }
  }

  lemma StartAccounted(ipv4: int, prefix: nat, older: bool, table: seq<ArpTable.Host>, reach: int -> bool, a: int)
    requires IsInt(ipv4) && prefix <= 32
    ensures Accounted(Start(ipv4, prefix, older, table), reach, a, if Scanned(ipv4, prefix, a) then 1 else 0)
  {
    assert Count(Start(ipv4, prefix, older, table).posted, Host(a)) == 0;
    hide AsUnsigned, VisitedKt, Pending, Count, ScanRange.Workers, NothingTwice;
    ListsKtOnce(ipv4, prefix);
    CrewCount(ListsKt(ipv4, prefix), a);
    ListedIsScanned(ipv4, prefix, a);
    hide Listed, Scanned;
  }

  lemma ListedIsScanned(ipv4: int, prefix: nat, a: int)
    requires prefix <= 32
    ensures Listed(ListsKt(ipv4, prefix), a) <==> Scanned(ipv4, prefix, a)
  {
    hide AsUnsigned, VisitedKt, ScanRange.Workers;
    var lists := ListsKt(ipv4, prefix);
    if t :| 0 <= t < ScanRange.Workers(prefix) && a in AsUnsigned(VisitedKt(ipv4, prefix, t)) {
      assert a in lists[t];
    }
  }

  lemma ListsKtOnce(ipv4: int, prefix: nat)
    requires prefix <= 32
    ensures NothingTwice(ListsKt(ipv4, prefix))
  {
    hide VisitedKt, ScanRange.Workers;
    var lists := ListsKt(ipv4, prefix);
    forall t, u, j, k | 0 <= t < |lists| && 0 <= u < |lists| && 0 <= j < |lists[t]| && 0 <= k < |lists[u]| &&
        lists[t][j] == lists[u][k]
      ensures t == u && j == k
    {
      VisitedOnceKt(ipv4, prefix, t, u, j, k);
    }
  }

  /** From prefix length 2 up, the hosts of the subnet are on the lists. */
  lemma ScannedIsHost(ipv4: int, prefix: nat, a: int)
    requires IsInt(ipv4) && 2 <= prefix <= 32
    ensures Scanned(ipv4, prefix, a) <==> IsHostOf(Unsigned(ipv4), prefix, a)
  {
    var ip := Unsigned(ipv4);
    ListedIsScanned(ipv4, prefix, a);
    hide AsUnsigned, VisitedKt, Visited, IsHostOf, Unsigned, Scanned, ScanRange.Workers;
    var lists := ListsKt(ipv4, prefix);
    forall t | 0 <= t < |lists| ensures lists[t] == Lists(ip, prefix)[t] {
      KotlinVisits(ipv4, prefix, t);
    }
    assert lists == Lists(ip, prefix);
    ListedIsHost(ip, prefix, a);
  }

  // ---- Nulls ------------------------------------------------------------------------

  predicate NullsCounted(s: Scan, stops: nat) {
    && Count(s.posted, Null) == stops + (if s.phase.Announced? then 1 else 0)
    && s.cancelled == (stops > 0)
    && (s.phase.Ended? ==> s.cancelled)
    && (s.phase.Scanning? || s.phase.Failed? || AllFinished(s.workers))
  }

  lemma WorkNulls(s: Scan, t: nat, reach: int -> bool)
    requires Enabled(s, Step.Work(t))
    ensures Count(Next(s, Step.Work(t), reach).posted, Null) == Count(s.posted, Null)
    ensures Next(s, Step.Work(t), reach).cancelled == s.cancelled
    ensures !AllFinished(s.workers)
    ensures var next := Next(s, Step.Work(t), reach); next.phase == s.phase || next.phase.Failed?
  {
    NoneFinished(s.workers, t);
    CountAppend(s.posted, Emitted(s.workers[t]), Null);
    assert Count(Emitted(s.workers[t]), Null) == 0;
    hide Count, Addressable, Advance, Emitted;
  }

  lemma NextNulls(s: Scan, step: Step, reach: int -> bool, stops: nat)
    requires Enabled(s, step) && NullsCounted(s, stops)
    ensures NullsCounted(Next(s, step, reach), stops + if step.Stop? then 1 else 0)
    ensures !s.phase.Announcing? && !s.phase.Announced? && s.cancelled ==>
              !Next(s, step, reach).phase.Announcing? && !Next(s, step, reach).phase.Announced?
    ensures s.phase.Announcing? || s.phase.Announced? ==>
              Next(s, step, reach).phase.Announcing? || Next(s, step, reach).phase.Announced?
  {
    if step.Work? {
      WorkNulls(s, step.t, reach);
      hide Next;
    } else {
      CountAppend(s.posted, [Null], Null);
      assert Count([Null], Null) == 1;
      if step.Serve? { EntryPosted(s.posted, s.table[step.i]); }
    }
    hide Count, Addressable, Advance;
  }

  function Stops(steps: seq<Step>): nat {
    Count(steps, Stop)
  }

  lemma {:induction false} RunNulls(s: Scan, steps: seq<Step>, reach: int -> bool, stops: nat)
    requires Possible(s, steps, reach) && NullsCounted(s, stops)
    ensures NullsCounted(After(s, steps, reach), stops + Stops(steps))
    ensures !s.phase.Announcing? && !s.phase.Announced? && s.cancelled ==>
              !After(s, steps, reach).phase.Announcing? && !After(s, steps, reach).phase.Announced?
    ensures s.phase.Announcing? || s.phase.Announced? ==>
              After(s, steps, reach).phase.Announcing? || After(s, steps, reach).phase.Announced?
    decreases |steps|
  {
    hide Next, NullsCounted, Enabled;
    if steps != [] {
      var next := Next(s, steps[0], reach);
      NextNulls(s, steps[0], reach, stops);
      var more := if steps[0].Stop? then 1 else 0;
      RunNulls(next, steps[1..], reach, stops + more);
      assert NullsCounted(s, stops) && NullsCounted(next, stops + more);
      CancelledStays(s, steps[0], reach);
    }
  }

  lemma CancelledStays(s: Scan, step: Step, reach: int -> bool)
    requires Enabled(s, step)
    ensures s.cancelled ==> Next(s, step, reach).cancelled
  {
  }

  predicate NullLast(s: Scan) {
    s.phase.Announced? ==> s.posted != [] && s.posted[|s.posted| - 1] == Null
  }

  lemma {:induction false} RunNullLast(s: Scan, steps: seq<Step>, reach: int -> bool, stops: nat)
    requires Possible(s, steps, reach) && NullsCounted(s, stops) && NullLast(s) && Stop !in steps
    ensures NullLast(After(s, steps, reach))
    decreases |steps|
  {
    if steps != [] {
      NextNulls(s, steps[0], reach, stops);
      NextNullLast(s, steps[0], reach, stops);
      hide Next, NullsCounted, Enabled, NullLast;
      RunNullLast(Next(s, steps[0], reach), steps[1..], reach, stops);
    }
  }

  lemma NextNullLast(s: Scan, step: Step, reach: int -> bool, stops: nat)
    requires Enabled(s, step) && NullsCounted(s, stops) && NullLast(s) && !step.Stop?
    ensures NullLast(Next(s, step, reach))
  {
    hide Count, Addressable, Advance, Emitted;
    if step.Work? { NoneFinished(s.workers, step.t); }
  }

  // ---- The stream of a run ------------------------------------------------------------

  /** Without a timeout and a stop the workers stay active, unless the scan fails. */
  lemma {:induction false} RunActive(s: Scan, steps: seq<Step>, reach: int -> bool)
    requires Possible(s, steps, reach) && (s.active || s.phase.Failed?) && Stop !in steps && Timeout !in steps
    ensures After(s, steps, reach).active || After(s, steps, reach).phase.Failed?
    decreases |steps|
  {
    hide Advance, Emitted, Addressable, AllFinished, AllGone;
    if steps != [] {
      assert steps[0] in steps;
      RunActive(Next(s, steps[0], reach), steps[1..], reach);
    }
  }

  lemma StartActive(ipv4: int, prefix: nat, older: bool, table: seq<ArpTable.Host>)
    requires IsInt(ipv4) && prefix <= 32
    ensures Start(ipv4, prefix, older, table).active
  {
  }

  /** In reachability mode, with no stop, in every interleaving: addresses of the scan that
      answer, each at most once, and after them exactly one null when the body is through.
      If nothing timed out, every such address is there. From prefix length 2 up the
      addresses of the scan are the hosts of the subnet. */
  lemma Stream(ipv4: int, prefix: nat, table: seq<ArpTable.Host>, steps: seq<Step>, reach: int -> bool)
    requires IsInt(ipv4) && prefix <= 32 && Probeable(reach)
    requires Possible(Start(ipv4, prefix, false, table), steps, reach) && Stop !in steps
    ensures var end := After(Start(ipv4, prefix, false, table), steps, reach);
            && !end.phase.Ended?
            && (end.phase.Announced? ==> end.posted != [] && end.posted[|end.posted| - 1] == Null)
            && (!end.phase.Announced? ==> Null !in end.posted)
            && (forall j, k :: 0 <= j < k < |end.posted| ==> end.posted[j] != end.posted[k])
            && (forall h :: Entry(h) !in end.posted)
            && (forall a :: Host(a) in end.posted ==> Scanned(ipv4, prefix, a) && reach(a))
            && (end.phase.Announced? && Timeout !in steps ==>
                  forall a :: Scanned(ipv4, prefix, a) && reach(a) ==> Host(a) in end.posted)
    ensures prefix >= 2 ==> forall a :: Scanned(ipv4, prefix, a) <==> IsHostOf(Unsigned(ipv4), prefix, a)
  {
    var start := Start(ipv4, prefix, false, table);
    var end := After(start, steps, reach);
    CountIn(steps, Stop);
    RunNulls(start, steps, reach, 0);
    RunNullLast(start, steps, reach, 0);
    StartTabled(ipv4, prefix, false, table);
    hide Start, After, Next, Possible, Accounted, Probeable, IsHostOf, Scanned, Count, Unsigned;
    CountIn(end.posted, Null);
    forall e | e in end.posted ensures Count(end.posted, e) <= 1 {
      if e.Entry? { RunTabled(start, steps, reach, e.host); }
      if e.Host? { EventsOf(ipv4, prefix, false, table, steps, reach, e.address); }
    }
    forall j, k | 0 <= j < k < |end.posted| ensures end.posted[j] != end.posted[k] {
      if end.posted[j] == end.posted[k] { CountTwice(end.posted, j, k); }
    }
    forall h ensures Entry(h) !in end.posted {
      RunTabled(start, steps, reach, h);
      CountIn(end.posted, Entry(h));
    }
    forall a ensures Host(a) in end.posted ==> Scanned(ipv4, prefix, a) && reach(a)
      ensures end.phase.Announced? && Timeout !in steps && Scanned(ipv4, prefix, a) && reach(a) ==>
                Host(a) in end.posted
    {
      EventsOf(ipv4, prefix, false, table, steps, reach, a);
      CountIn(end.posted, Host(a));
    }
    forall a | prefix >= 2 ensures Scanned(ipv4, prefix, a) <==> IsHostOf(Unsigned(ipv4), prefix, a) {
      ScannedIsHost(ipv4, prefix, a);
    }
  }

  /** In any run, stopped or not: how often one address is posted. */
  lemma EventsOf(
      ipv4: int, prefix: nat, older: bool, table: seq<ArpTable.Host>, steps: seq<Step>, reach: int -> bool, a: int)
    requires IsInt(ipv4) && prefix <= 32 && Probeable(reach)
    requires Possible(Start(ipv4, prefix, older, table), steps, reach)
    ensures var end := After(Start(ipv4, prefix, older, table), steps, reach);
            && Count(end.posted, Host(a)) <= (if !older && Scanned(ipv4, prefix, a) && reach(a) then 1 else 0)
            && (end.phase.Announced? && Stop !in steps && Timeout !in steps && Scanned(ipv4, prefix, a) ==>
                  Addressable(a) && (!older && reach(a) ==> Count(end.posted, Host(a)) == 1))
  {
    hide Start, After, Next, Possible, Probeable, Scanned, Count, Pending, Addressable;
    var start := Start(ipv4, prefix, older, table);
    var end := After(start, steps, reach);
    var once := if Scanned(ipv4, prefix, a) then 1 else 0;
    StartAccounted(ipv4, prefix, older, table, reach, a);
    StartTabled(ipv4, prefix, older, table);
    RunKeeps(start, steps, reach, a, once);
    RunOlder(start, steps, reach);
    StartActive(ipv4, prefix, older, table);
    if Stop !in steps && Timeout !in steps { RunActive(start, steps, reach); }
    if end.phase.Announced? {
      NothingPending(end.workers, a);
      assert Accounted(end, reach, a, once);
      if reach(a) { Probing(reach, a); }
    }
  }

  lemma Probing(reach: int -> bool, a: int)
    requires Probeable(reach) && reach(a)
    ensures Addressable(a)
  {
  }

  ghost predicate AllAddressable(ipv4: int, prefix: nat)
    requires prefix <= 32
  {
    forall a :: Scanned(ipv4, prefix, a) ==> Addressable(a)
  }

  lemma AllAddressableIff(ipv4: int, prefix: nat)
    requires IsInt(ipv4) && 2 <= prefix <= 32
    ensures AllAddressable(ipv4, prefix) <==> KeepsClear(Unsigned(ipv4), prefix)
  {
    hide KeepsClear, Unsigned, IsHost, MinBytes, ToInt, Scanned;
    var ip := Unsigned(ipv4);
    EveryHostHasFourBytesIff(ip, prefix);
    forall a ensures Scanned(ipv4, prefix, a) <==> IsHostOf(ip, prefix, a) {
      ScannedIsHost(ipv4, prefix, a);
    }
    if AllAddressable(ipv4, prefix) {
      forall a: address32 | IsHost(ip, prefix, a) ensures |MinBytes(ToInt(a))| == 4 {
        assert IsHostOf(ip, prefix, a) && Scanned(ipv4, prefix, a) && Addressable(a);
      }
    }
  }

  /** A complete scan, nothing timed out or stopped, is possible only if every address of the
      scan has four bytes: from prefix length 2 up, only in a subnet that keeps clear of both
      ends of the address space. */
  lemma CompletesOnlyInTheMiddle(
      ipv4: int, prefix: nat, older: bool, table: seq<ArpTable.Host>, steps: seq<Step>, reach: int -> bool)
    requires IsInt(ipv4) && prefix <= 32 && Probeable(reach)
    requires Possible(Start(ipv4, prefix, older, table), steps, reach)
    requires After(Start(ipv4, prefix, older, table), steps, reach).phase.Announced?
    requires Stop !in steps && Timeout !in steps
    ensures AllAddressable(ipv4, prefix)
    ensures prefix >= 2 ==> KeepsClear(Unsigned(ipv4), prefix)
  {
    hide Start, After, Next, Possible, Probeable, Addressable, Scanned, KeepsClear, Unsigned;
    forall a | Scanned(ipv4, prefix, a) ensures Addressable(a) {
      EventsOf(ipv4, prefix, older, table, steps, reach, a);
    }
    if prefix >= 2 { AllAddressableIff(ipv4, prefix); }
  }

  /** In such a subnet no run fails. */
  lemma NeverFails(
      ipv4: int, prefix: nat, older: bool, table: seq<ArpTable.Host>, steps: seq<Step>, reach: int -> bool)
    requires IsInt(ipv4) && prefix <= 32 && Probeable(reach)
    requires if prefix >= 2 then KeepsClear(Unsigned(ipv4), prefix) else AllAddressable(ipv4, prefix)
    requires Possible(Start(ipv4, prefix, older, table), steps, reach)
    ensures !After(Start(ipv4, prefix, older, table), steps, reach).phase.Failed?
  {
    hide Start, After, Next, Possible, Probeable, KeepsClear, Unsigned, Addressable, Scanned;
    var start := Start(ipv4, prefix, older, table);
    if prefix >= 2 { AllAddressableIff(ipv4, prefix); }
    forall a ensures Addressable(a) || Pending(start.workers, a) == 0 {
      StartAccounted(ipv4, prefix, older, table, reach, a);
    }
    FreshStart(ipv4, prefix, older, table);
    SafeRun(start, steps, reach);
  }

  lemma FreshStart(ipv4: int, prefix: nat, older: bool, table: seq<ArpTable.Host>)
    requires IsInt(ipv4) && prefix <= 32
    ensures !Start(ipv4, prefix, older, table).phase.Failed?
  {
  }

  ghost predicate Safe(s: Scan) {
    !s.phase.Failed? && forall a :: Addressable(a) || Pending(s.workers, a) == 0
  }

  lemma {:induction false} SafeRun(s: Scan, steps: seq<Step>, reach: int -> bool)
    requires Possible(s, steps, reach) && Safe(s)
    ensures Safe(After(s, steps, reach))
    decreases |steps|
  {
    if steps != [] {
      SafeNext(s, steps[0], reach);
      hide Next, Safe;
      SafeRun(Next(s, steps[0], reach), steps[1..], reach);
    }
  }

  lemma SafeNext(s: Scan, step: Step, reach: int -> bool)
    requires Enabled(s, step) && Safe(s)
    ensures Safe(Next(s, step, reach))
  {
    if step.Work? {
      var w := s.workers[step.t];
      HeadPending(s.workers, step.t);
      var posts := Posts(s.older, reach);
      var v := Advance(w, s.active, posts);
      forall a ensures Pending(s.workers[step.t := v], a) <= Pending(s.workers, a) {
        PendingUpdate(s.workers, step.t, v, a);
        CountShrinks(w, s.active, posts, a);
        hide Pending, Count, Advance;
      }
      hide Pending, Count, Advance, Emitted, Addressable;
    } else {
      hide Pending, Addressable;
    }
  }

  lemma CountShrinks(w: Worker, active: bool, reach: int -> bool, a: int)
    requires !Finished(w)
    ensures Count(Advance(w, active, reach).todo, a) <= Count(w.todo, a)
  {
  }

  lemma {:induction false} HeadPending(workers: seq<Worker>, t: nat)
    requires t < |workers| && !Finished(workers[t])
    ensures Pending(workers, workers[t].todo[0]) > 0
  {
    PendingUpdate(workers, t, Worker(Looping, []), workers[t].todo[0]);
  }

  // ---- Stopping, and getting to the end ------------------------------------------------

  /** Each stop posts a null. The body posts one more exactly when it is past its last look
      at `isActive` before the first stop. */
  lemma NullsOfARun(
      ipv4: int, prefix: nat, older: bool, table: seq<ArpTable.Host>, before: seq<Step>, after: seq<Step>,
      reach: int -> bool)
    requires IsInt(ipv4) && prefix <= 32 && Stop !in before
    requires Possible(Start(ipv4, prefix, older, table), before, reach)
    requires Possible(After(Start(ipv4, prefix, older, table), before, reach), [Stop] + after, reach)
    ensures var atStop := After(Start(ipv4, prefix, older, table), before, reach);
            var end := After(atStop, [Stop] + after, reach);
            && Count(end.posted, Null) == 1 + Stops(after) + (if end.phase.Announced? then 1 else 0)
            && (end.phase.Announcing? || end.phase.Announced? <==> atStop.phase.Announcing? || atStop.phase.Announced?)
  {
    var start := Start(ipv4, prefix, older, table);
    CountIn(before, Stop);
    RunNulls(start, before, reach, 0);
    var atStop := After(start, before, reach);
    RunNulls(atStop, [Stop] + after, reach, 0);
    var steps := [Stop] + after;
    assert steps[0] == Stop && steps[1..] == after;
    var stopped := Next(atStop, Stop, reach);
    NextNulls(atStop, Stop, reach, 0);
    RunNulls(stopped, after, reach, 1);
    assert Stops(steps) == 1 + Stops(after);
  }

  function WorkSteps(steps: seq<Step>): nat {
    if steps == [] then 0 else (if steps[0].Work? then 1 else 0) + WorkSteps(steps[1..])
  }

  lemma StoppedNext(s: Scan, step: Step, reach: int -> bool, reach': int -> bool, a: int)
    requires Enabled(s, step) && !s.active
    ensures var next := Next(s, step, reach);
            && next == Next(s, step, reach') && !next.active
            && Count(next.posted, Host(a)) + OnTheWay(next.workers, a)
               == Count(s.posted, Host(a)) + OnTheWay(s.workers, a)
            && TotalStepsLeft(next.workers) <= TotalStepsLeft(s.workers) - (if step.Work? then 1 else 0)
  {
    hide Addressable, AllFinished, AllGone, Count, OnTheWay, TotalStepsLeft;
    if step.Work? {
      StoppedStep(s.workers[step.t], Posts(s.older, reach), Posts(s.older, reach'), a);
      StoppedCrew(s.workers, s.posted, step.t, Posts(s.older, reach), a);
      hide Advance, Emitted;
    } else {
      NullsAreNoHosts(s.posted, a);
      if step.Serve? { EntryPosted(s.posted, s.table[step.i]); }
    }
  }

  lemma NullsAreNoHosts(posted: seq<Event>, a: int)
    ensures Count(posted + [Null], Host(a)) == Count(posted, Host(a))
  {
    CountAppend(posted, [Null], Host(a));
  }

  lemma {:induction false} StoppedRun(s: Scan, steps: seq<Step>, reach: int -> bool, reach': int -> bool, a: int)
    requires Possible(s, steps, reach) && !s.active
    ensures var end := After(s, steps, reach);
            && Possible(s, steps, reach') && After(s, steps, reach') == end && !end.active
            && Count(end.posted, Host(a)) + OnTheWay(end.workers, a)
               == Count(s.posted, Host(a)) + OnTheWay(s.workers, a)
            && WorkSteps(steps) <= TotalStepsLeft(s.workers)
    decreases |steps|
  {
    hide Next, Enabled, Count, OnTheWay, TotalStepsLeft;
    if steps != [] {
      StoppedNext(s, steps[0], reach, reach', a);
      StoppedRun(Next(s, steps[0], reach), steps[1..], reach, reach', a);
    }
  }

  /** A run heeds a stop and the timeout. Afterwards an address is posted only by the workers that
      were already past their last look at `isActive` with it, once by each; the workers make at most
      two steps each on average, and none of them probes: the rest of the run is the same whoever
      answers. */
  lemma HeedsStop(
      ipv4: int, prefix: nat, older: bool, table: seq<ArpTable.Host>, before: seq<Step>, stop: Step, after: seq<Step>,
      reach: int -> bool, reach': int -> bool, a: int)
    requires IsInt(ipv4) && prefix <= 32 && (stop == Stop || stop == Timeout)
    requires Possible(Start(ipv4, prefix, older, table), before, reach)
    requires Possible(After(Start(ipv4, prefix, older, table), before, reach), [stop] + after, reach)
    ensures var atStop := After(Start(ipv4, prefix, older, table), before, reach);
            var end := After(atStop, [stop] + after, reach);
            && Count(end.posted, Host(a)) <= Count(atStop.posted, Host(a)) + OnTheWay(atStop.workers, a)
            && (AllFinished(end.workers) ==>
                  Count(end.posted, Host(a)) == Count(atStop.posted, Host(a)) + OnTheWay(atStop.workers, a))
            && WorkSteps(after) <= 2 * |atStop.workers|
            && Possible(atStop, [stop] + after, reach') && After(atStop, [stop] + after, reach') == end
  {
    var atStop := After(Start(ipv4, prefix, older, table), before, reach);
    var steps := [stop] + after;
    assert steps[0] == stop && steps[1..] == after;
    StopNow(atStop, stop, reach, reach', a);
    hide Start, Next, Enabled, Count, OnTheWay, TotalStepsLeft;
    var stopped := Next(atStop, stop, reach);
    StoppedRun(stopped, after, reach, reach', a);
    var end := After(stopped, after, reach);
    if AllFinished(end.workers) { NoneOnTheWay(end.workers, a); }
  }

  lemma StopNow(s: Scan, stop: Step, reach: int -> bool, reach': int -> bool, a: int)
    requires Enabled(s, stop) && (stop == Stop || stop == Timeout)
    ensures var next := Next(s, stop, reach);
            && next == Next(s, stop, reach') && !next.active && next.workers == s.workers
            && Count(next.posted, Host(a)) == Count(s.posted, Host(a))
  {
    NullsAreNoHosts(s.posted, a);
  }

  /** How many coroutines of the table are past their look at `isActive` with the host. */
  function Entering(tasks: seq<Task>, table: seq<ArpTable.Host>, h: ArpTable.Host): nat {
    if tasks == [] || table == [] then 0
    else (if tasks[0].Ready? && table[0] == h then 1 else 0) + Entering(tasks[1..], table[1..], h)
  }

  lemma {:induction false} EnteringUpdate(
      tasks: seq<Task>, table: seq<ArpTable.Host>, h: ArpTable.Host, i: nat, task: Task)
    requires i < |tasks| && i < |table|
    ensures Entering(tasks[i := task], table, h) == Entering(tasks, table, h)
              - (if tasks[i].Ready? && table[i] == h then 1 else 0) + (if task.Ready? && table[i] == h then 1 else 0)
  {
    var updated := tasks[i := task];
    if i == 0 {
      assert updated[1..] == tasks[1..];
    } else {
      assert updated[1..] == tasks[1..][i - 1 := task];
      EnteringUpdate(tasks[1..], table[1..], h, i - 1, task);
    }
  }

  lemma {:induction false} NoneEntering(tasks: seq<Task>, table: seq<ArpTable.Host>, h: ArpTable.Host)
    requires forall i :: 0 <= i < |tasks| ==> !tasks[i].Ready?
    ensures Entering(tasks, table, h) == 0
  {
    if tasks != [] && table != [] { NoneEntering(tasks[1..], table[1..], h); }
  }

  /** There are no coroutines of the table before it is read. */
  predicate Untabled(s: Scan) {
    s.phase.Scanning? || s.phase.Joined? ==> s.tasks == []
  }

  lemma CancelledNext(s: Scan, step: Step, reach: int -> bool, h: ArpTable.Host)
    requires Enabled(s, step) && Untabled(s)
    ensures Untabled(Next(s, step, reach)) && Next(s, step, reach).table == s.table
    ensures s.cancelled ==>
              var next := Next(s, step, reach);
              && next.cancelled
              && Count(next.posted, Entry(h)) + Entering(next.tasks, next.table, h)
                 == Count(s.posted, Entry(h)) + Entering(s.tasks, s.table, h)
  {
    hide Addressable, AllFinished, AllGone, Count, Entering;
    match step
    case Work(t) =>
      CountAppend(s.posted, Emitted(s.workers[t]), Entry(h));
      EmitsNoEntry(s.workers[t], h);
      hide Advance, Emitted;
    case Serve(i) =>
      EntryPosted(s.posted, s.table[i]);
      EnteringUpdate(s.tasks, s.table, h, i, Gone);
    case ReadTable =>
      NoneEntering(s.tasks, s.table, h);
      NoneEntering(seq(|s.table|, _ => Waiting), s.table, h);
    case _ =>
      CountAppend(s.posted, [Null], Entry(h));
      NullIsNoEntry(h);
  }

  lemma EmitsNoEntry(w: Worker, h: ArpTable.Host)
    requires !Finished(w)
    ensures Count(Emitted(w), Entry(h)) == 0
  {
  }

  lemma NullIsNoEntry(h: ArpTable.Host)
    ensures Count([Null], Entry(h)) == 0
  {
  }

  lemma {:induction false} CancelledRun(s: Scan, steps: seq<Step>, reach: int -> bool, h: ArpTable.Host)
    requires Possible(s, steps, reach) && Untabled(s)
    ensures Untabled(After(s, steps, reach))
    ensures s.cancelled ==>
              var end := After(s, steps, reach);
              Count(end.posted, Entry(h)) + Entering(end.tasks, end.table, h)
              == Count(s.posted, Entry(h)) + Entering(s.tasks, s.table, h)
    decreases |steps|
  {
    hide Next, Enabled, Count, Entering, Untabled;
    if steps != [] {
      CancelledNext(s, steps[0], reach, h);
      CancelledRun(Next(s, steps[0], reach), steps[1..], reach, h);
    }
  }

  /** The coroutines of the table heed a stop as well: a host of the table is posted afterwards only
      by those that were past their look at `isActive` with it. */
  lemma TableHeedsStop(
      ipv4: int, prefix: nat, older: bool, table: seq<ArpTable.Host>, before: seq<Step>, after: seq<Step>,
      reach: int -> bool, h: ArpTable.Host)
    requires IsInt(ipv4) && prefix <= 32
    requires Possible(Start(ipv4, prefix, older, table), before, reach)
    requires Possible(After(Start(ipv4, prefix, older, table), before, reach), [Stop] + after, reach)
    ensures var atStop := After(Start(ipv4, prefix, older, table), before, reach);
            var end := After(atStop, [Stop] + after, reach);
            Count(end.posted, Entry(h)) <= Count(atStop.posted, Entry(h)) + Entering(atStop.tasks, table, h)
  {
    var start := Start(ipv4, prefix, older, table);
    CancelledRun(start, before, reach, h);
    StartTabled(ipv4, prefix, older, table);
    RunTabled(start, before, reach, h);
    var atStop, steps := After(start, before, reach), [Stop] + after;
    assert steps[0] == Stop && steps[1..] == after;
    CountAppend(atStop.posted, [Null], Entry(h));
    NullIsNoEntry(h);
    hide Start, Count, Entering, Tabled;
    CancelledRun(Next(atStop, Stop, reach), after, reach, h);
  }

  function TaskWork(tasks: seq<Task>): nat {
    if tasks == [] then 0
    else (match tasks[0] case Waiting => 2 case Ready => 1 case Gone => 0) + TaskWork(tasks[1..])
  }

  lemma {:induction false} TaskWorkUpdate(tasks: seq<Task>, i: nat, task: Task)
    requires i < |tasks| && (if tasks[i].Waiting? then !task.Waiting? else tasks[i].Ready? && task.Gone?)
    ensures TaskWork(tasks[i := task]) < TaskWork(tasks)
  {
    var updated := tasks[i := task];
    if i == 0 {
      assert updated[1..] == tasks[1..];
    } else {
      assert updated[1..] == tasks[1..][i - 1 := task];
      TaskWorkUpdate(tasks[1..], i - 1, task);
    }
  }

  lemma {:induction false} TaskWorkAtStart(n: nat)
    ensures TaskWork(seq(n, _ => Waiting)) == 2 * n
  {
    if n > 0 {
      assert seq(n, _ => Waiting)[1..] == seq(n - 1, _ => Waiting);
      TaskWorkAtStart(n - 1);
    }
  }

  /** How many steps other than stops are left, at most. */
  function Left(s: Scan): int {
    TotalWork(s.workers) + (if s.active then 1 else 0) +
    (match s.phase
     case Scanning => 5 + 2 * |s.table|
     case Joined => 4 + 2 * |s.table|
     case Serving => 3 + TaskWork(s.tasks)
     case Served => 2
     case Announcing => 1
     case _ => 0)
  }

  lemma NextIsNearer(s: Scan, step: Step, reach: int -> bool)
    requires Enabled(s, step) && AllSound(s.workers, Posts(s.older, reach)) &&
      (s.phase.Scanning? || s.phase.Failed? || AllFinished(s.workers))
    ensures var next := Next(s, step, reach); next.older == s.older && AllSound(next.workers, Posts(next.older, reach))
    ensures var next := Next(s, step, reach); next.phase.Scanning? || next.phase.Failed? || AllFinished(next.workers)
    ensures Left(Next(s, step, reach)) <= Left(s) - (if step.Stop? then 0 else 1)
  {
    hide Addressable, TotalWork, Count, Pending, Advance, Emitted;
    if step.Work? {
      NoneFinished(s.workers, step.t);
      StepCounts(s.workers, s.posted, step.t, s.active, Posts(s.older, reach), 0);
      DropCounts(s.workers, step.t, Posts(s.older, reach), 0);
    }
    if step.ReadTable? { TaskWorkAtStart(|s.table|); }
    if step.Serve? {
      TaskWorkUpdate(s.tasks, step.i, if s.tasks[step.i].Ready? || s.cancelled then Gone else Ready);
    }
    hide TaskWork;
  }

  /** No run goes on for ever, and none gets stuck: while the body is not through, one of its
      own steps or a worker's can be made. */
  lemma {:induction false} RunsAreBounded(s: Scan, steps: seq<Step>, reach: int -> bool)
    requires Possible(s, steps, reach) && AllSound(s.workers, Posts(s.older, reach))
    requires s.phase.Scanning? || s.phase.Failed? || AllFinished(s.workers)
    ensures |steps| <= Left(s) + Stops(steps)
    decreases |steps|
  {
    hide Enabled, Next, Left, AllSound, AllFinished;
    if steps != [] {
      NextIsNearer(s, steps[0], reach);
      RunsAreBounded(Next(s, steps[0], reach), steps[1..], reach);
    } else {
      LeftIsNatural(s, reach);
    }
  }

  lemma LeftIsNatural(s: Scan, reach: int -> bool)
    requires AllSound(s.workers, Posts(s.older, reach))
    ensures Left(s) >= 0
  {
    WorkIsNatural(s.workers, Posts(s.older, reach));
  }

  /** In any run: while the body is not through, a worker, a coroutine or the body can step. */
  lemma NeverStuck(ipv4: int, prefix: nat, older: bool, table: seq<ArpTable.Host>, steps: seq<Step>, reach: int -> bool)
    requires IsInt(ipv4) && prefix <= 32 && Possible(Start(ipv4, prefix, older, table), steps, reach)
    ensures var end := After(Start(ipv4, prefix, older, table), steps, reach);
            end.phase.Announced? || end.phase.Ended? || end.phase.Failed?
            || exists step: Step :: !step.Timeout? && !step.Stop? && Enabled(end, step)
  {
    var end := After(Start(ipv4, prefix, older, table), steps, reach);
    StartTabled(ipv4, prefix, older, table);
    RunTabled(Start(ipv4, prefix, older, table), steps, reach, ArpTable.Host("", ""));
    hide Start, After, Next, Possible, Count, Unserved, Enabled;
    if !(end.phase.Announced? || end.phase.Ended? || end.phase.Failed?) { SomeStep(end); }
  }

  lemma SomeStep(s: Scan)
    requires s.phase.Scanning? || s.phase.Joined? || s.phase.Serving? || s.phase.Served? || s.phase.Announcing?
    requires s.phase.Served? ==> s.older
    requires s.phase.Serving? ==> |s.tasks| == |s.table|
    ensures exists step: Step :: !step.Timeout? && !step.Stop? && Enabled(s, step)
  {
    if s.phase.Scanning? && !AllFinished(s.workers) {
      var t := SomeWorkerSteps(s.workers);
      assert Enabled(s, Step.Work(t));
    } else if s.phase.Scanning? {
      assert Enabled(s, Join);
    } else if s.phase.Joined? && s.older {
      assert Enabled(s, ReadTable);
    } else if s.phase.Serving? && !AllGone(s.tasks) {
      var i :| 0 <= i < |s.tasks| && !s.tasks[i].Gone?;
      assert Enabled(s, Serve(i));
    } else if s.phase.Serving? {
      assert Enabled(s, Gather);
    } else if s.phase.Announcing? {
      assert Enabled(s, Announce);
    } else {
      assert Enabled(s, Check);
    }
  }

  /** Nothing orders the steps of different workers and coroutines, a stop, and the timeout of a
      scan at work: each may come next whenever there is something for it to do. */
  lemma Interleaves(s: Scan)
    ensures Enabled(s, Stop) && (s.phase.Scanning? && s.active ==> Enabled(s, Timeout))
    ensures forall t: nat :: t < |s.workers| && s.workers[t].todo != [] ==> Enabled(s, Step.Work(t))
    ensures forall i: nat | s.phase.Serving? && i < |s.tasks| == |s.table| ::
              s.tasks[i] != Gone ==> Enabled(s, Serve(i))
  {
  }

  // ---- The hosts of the table -----------------------------------------------------------

  /** How often the host is still to be posted by a coroutine. */
  function Unserved(tasks: seq<Task>, table: seq<ArpTable.Host>, h: ArpTable.Host): nat
    requires |tasks| == |table|
  {
    if tasks == [] then 0
    else (if !tasks[0].Gone? && table[0] == h then 1 else 0) + Unserved(tasks[1..], table[1..], h)
  }

  lemma {:induction false} UnservedUpdate(
      tasks: seq<Task>, table: seq<ArpTable.Host>, h: ArpTable.Host, i: nat, task: Task)
    requires |tasks| == |table| && i < |tasks| && !tasks[i].Gone?
    ensures Unserved(tasks[i := task], table, h)
            == Unserved(tasks, table, h) - if task.Gone? && table[i] == h then 1 else 0
  {
    var updated := tasks[i := task];
    if i == 0 {
      assert updated[1..] == tasks[1..];
    } else {
      assert updated[1..] == tasks[1..][i - 1 := task];
      UnservedUpdate(tasks[1..], table[1..], h, i - 1, task);
    }
  }

  lemma {:induction false} AllUnserved(table: seq<ArpTable.Host>, h: ArpTable.Host)
    ensures Unserved(seq(|table|, _ => Waiting), table, h) == Count(table, h)
  {
    if table != [] {
      assert seq(|table|, _ => Waiting)[1..] == seq(|table| - 1, _ => Waiting);
      AllUnserved(table[1..], h);
    }
  }

  lemma {:induction false} NoneUnserved(tasks: seq<Task>, table: seq<ArpTable.Host>, h: ArpTable.Host)
    requires |tasks| == |table| && AllGone(tasks)
    ensures Unserved(tasks, table, h) == 0
  {
    if tasks != [] { NoneUnserved(tasks[1..], table[1..], h); }
  }

  /** The host is posted as often as it is in the table, less what is still to come and what a
      stop prevents. */
  predicate Tabled(s: Scan, h: ArpTable.Host) {
    var posted, all := Count(s.posted, Entry(h)), Count(s.table, h);
    && posted <= all
    && (!s.older || s.phase.Scanning? || s.phase.Joined? ==> posted == 0)
    && (s.phase.Serving? || s.phase.Served? ==> s.older)
    && (s.phase.Serving? ==>
          && |s.tasks| == |s.table|
          && posted + Unserved(s.tasks, s.table, h) <= all
          && (!s.cancelled ==> posted + Unserved(s.tasks, s.table, h) == all))
    && (s.phase.Served? && !s.cancelled ==> posted == all)
    && (s.older && (s.phase.Announcing? || s.phase.Announced?) ==> posted == all)
  }

  lemma WorkTabled(s: Scan, t: nat, reach: int -> bool, h: ArpTable.Host)
    requires Enabled(s, Step.Work(t)) && Tabled(s, h)
    ensures Tabled(Next(s, Step.Work(t), reach), h)
  {
    CountAppend(s.posted, Emitted(s.workers[t]), Entry(h));
    assert Count(Emitted(s.workers[t]), Entry(h)) == 0;
    hide Count, Unserved, Advance, Emitted, Addressable, AllFinished;
  }

  lemma ServeTabled(s: Scan, i: nat, reach: int -> bool, h: ArpTable.Host)
    requires Enabled(s, Serve(i)) && Tabled(s, h)
    ensures Tabled(Next(s, Serve(i), reach), h)
  {
    EntryPosted(s.posted, s.table[i]);
    UnservedUpdate(s.tasks, s.table, h, i, if s.tasks[i].Ready? || s.cancelled then Gone else Ready);
    hide Count, Unserved;
  }

  lemma NextTabled(s: Scan, step: Step, reach: int -> bool, h: ArpTable.Host)
    requires Enabled(s, step) && Tabled(s, h)
    ensures Tabled(Next(s, step, reach), h)
    ensures Next(s, step, reach).older == s.older && Next(s, step, reach).table == s.table
  {
    if step.Work? {
      WorkTabled(s, step.t, reach, h);
      hide Tabled, Addressable, Advance, Emitted;
    } else if step.Serve? {
      ServeTabled(s, step.i, reach, h);
      hide Tabled;
    } else {
      BodyTabled(s, step, reach, h);
      hide Tabled;
    }
  }

  lemma BodyTabled(s: Scan, step: Step, reach: int -> bool, h: ArpTable.Host)
    requires Enabled(s, step) && Tabled(s, h) && !step.Work? && !step.Serve?
    ensures Tabled(Next(s, step, reach), h)
  {
    AllUnserved(s.table, h);
    if step.Gather? && |s.tasks| == |s.table| { NoneUnserved(s.tasks, s.table, h); }
    CountAppend(s.posted, [Null], Entry(h));
    assert Count([Null], Entry(h)) == 0;
    hide Count, Unserved, AllFinished, AllGone;
  }

  lemma {:induction false} RunTabled(s: Scan, steps: seq<Step>, reach: int -> bool, h: ArpTable.Host)
    requires Possible(s, steps, reach) && Tabled(s, h)
    ensures Tabled(After(s, steps, reach), h)
    ensures After(s, steps, reach).older == s.older && After(s, steps, reach).table == s.table
    decreases |steps|
  {
    hide Enabled, Next, Tabled;
    if steps != [] {
      NextTabled(s, steps[0], reach, h);
      RunTabled(Next(s, steps[0], reach), steps[1..], reach, h);
    }
  }

  /** On the older versions, in every interleaving: no host of the table is posted more often
      than the table has it, and no other event but nulls. With no stop the events are the hosts
      of the table, each as often as the table has it, and after them exactly one null, whether
      the scan timed out or not. */
  lemma OlderStream(ipv4: int, prefix: nat, table: seq<ArpTable.Host>, steps: seq<Step>, reach: int -> bool)
    requires IsInt(ipv4) && prefix <= 32 && Probeable(reach)
    requires Possible(Start(ipv4, prefix, true, table), steps, reach)
    ensures var end := After(Start(ipv4, prefix, true, table), steps, reach);
            && (forall a :: Host(a) !in end.posted)
            && (forall h :: Count(end.posted, Entry(h)) <= Count(table, h))
            && (Stop !in steps && !end.phase.Announced? ==> Null !in end.posted)
            && (end.phase.Announced? ==> forall h :: Count(end.posted, Entry(h)) == Count(table, h))
            && (Stop !in steps && end.phase.Announced? ==>
                  Count(end.posted, Null) == 1 && end.posted[|end.posted| - 1] == Null)
  {
    var start := Start(ipv4, prefix, true, table);
    var end := After(start, steps, reach);
    CountIn(steps, Stop);
    RunNulls(start, steps, reach, 0);
    if Stop !in steps { RunNullLast(start, steps, reach, 0); }
    StartTabled(ipv4, prefix, true, table);
    hide Start, After, Next, Possible, Accounted, Probeable, Scanned, Count;
    CountIn(end.posted, Null);
    forall a ensures Host(a) !in end.posted {
      EventsOf(ipv4, prefix, true, table, steps, reach, a);
      CountIn(end.posted, Host(a));
    }
    forall h ensures Count(end.posted, Entry(h)) <= Count(table, h)
      ensures end.phase.Announced? ==> Count(end.posted, Entry(h)) == Count(table, h)
    {
      RunTabled(start, steps, reach, h);
    }
  }

  lemma StartTabled(ipv4: int, prefix: nat, older: bool, table: seq<ArpTable.Host>)
    requires IsInt(ipv4) && prefix <= 32
    ensures var start := Start(ipv4, prefix, older, table);
            start.older == older && start.table == table && forall h :: Tabled(start, h)
  {
  }
}
