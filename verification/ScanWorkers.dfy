/**
 The workers of a scan, as both scanners run them: each takes the addresses of its list
 in order, probes one, and posts an event for it when it answered
 (LanDeviceScanner.kt:74-88 and 133-143, LanDeviceScanner.swift:36-54).

 A worker's own actions are atomic steps; nothing is said about how the steps of
 different workers interleave. Whether a host answers is the parameter `reach`.
 Events are listed in the order in which they were posted to the main queue, which is
 the order in which the sink receives them.
 */
module ScanWorkers {
  import ArpTable

  /** A host that answered, a host of the neighbour table, and the end. */
  datatype Event = Host(address: int) | Entry(host: ArpTable.Host) | Null

  /** `todo[0]` is the address at hand: not yet probed, found reachable, or past the last
      check for cancellation and about to be posted. */
  datatype Stage = Looping | Probed | Posting
  datatype Worker = Worker(stage: Stage, todo: seq<int>)

  predicate Finished(w: Worker) {
    w.todo == []
  }

  predicate Sound(w: Worker, reach: int -> bool) {
    w.stage != Looping ==> w.todo != [] && reach(w.todo[0])
  }

  function Advance(w: Worker, active: bool, reach: int -> bool): (r: Worker)
    requires !Finished(w)
    ensures Sound(w, reach) ==> Sound(r, reach)
    ensures Sound(w, reach) ==> Work(r) < Work(w)
  {
    var next := Worker(Looping, w.todo[1..]);
    match w.stage
    case Looping => if !active then Worker(Looping, []) else if reach(w.todo[0]) then w.(stage := Probed) else next
    case Probed => if active then w.(stage := Posting) else next
    case Posting => next
  }

  function Emitted(w: Worker): seq<Event>
    requires !Finished(w)
  {
    if w.stage.Posting? then [Host(w.todo[0])] else []
  }

  /** How many steps a worker can still make, at most. */
  function Work(w: Worker): int {
    3 * |w.todo| - (match w.stage case Looping => 0 case Probed => 1 case Posting => 2)
  }

  function Crew(lists: seq<seq<int>>): (r: seq<Worker>)
    ensures |r| == |lists|
    ensures forall t :: 0 <= t < |r| ==> r[t] == Worker(Looping, lists[t])
  {
    seq(|lists|, t requires 0 <= t < |lists| => Worker(Looping, lists[t]))
  }

  predicate AllFinished(workers: seq<Worker>) {
    forall t :: 0 <= t < |workers| ==> Finished(workers[t])
  }

  predicate AllSound(workers: seq<Worker>, reach: int -> bool) {
    forall t :: 0 <= t < |workers| ==> Sound(workers[t], reach)
  }

  function TotalWork(workers: seq<Worker>): int {
    if workers == [] then 0 else Work(workers[0]) + TotalWork(workers[1..])
  }

  // ---- Counting ---------------------------------------------------------------

  function Count<T(==)>(s: seq<T>, x: T): nat {
    if s == [] then 0 else (if s[0] == x then 1 else 0) + Count(s[1..], x)
  }

  lemma {:induction false} CountAppend<T>(s: seq<T>, t: seq<T>, x: T)
    ensures Count(s + t, x) == Count(s, x) + Count(t, x)
  {
    if s == [] {
      assert s + t == t;
    } else {
      assert (s + t)[1..] == s[1..] + t;
      CountAppend(s[1..], t, x);
    }
  }

  lemma {:induction false} CountIn<T>(s: seq<T>, x: T)
    ensures Count(s, x) > 0 <==> x in s
  {
    if s != [] {
      CountIn(s[1..], x);
      assert s == [s[0]] + s[1..];
    }
  }

  lemma {:induction false} CountTwice<T>(s: seq<T>, j: nat, k: nat)
    requires j < k < |s| && s[j] == s[k]
    ensures Count(s, s[j]) >= 2
  {
    var rest := s[1..];
    if j == 0 {
      assert rest[k - 1] == s[k];
      CountIn(rest, s[k]);
    } else {
      assert rest[j - 1] == s[j] && rest[k - 1] == s[k];
      CountTwice(rest, j - 1, k - 1);
    }
  }

  lemma {:induction false} CountDistinct<T>(s: seq<T>, x: T)
    requires forall j, k :: 0 <= j < k < |s| ==> s[j] != s[k]
    ensures Count(s, x) <= 1
  {
    if s != [] {
      var rest := s[1..];
      forall j, k | 0 <= j < k < |rest| ensures rest[j] != rest[k] {
        assert rest[j] == s[j + 1] && rest[k] == s[k + 1];
      }
      CountDistinct(rest, x);
      CountIn(rest, x);
      forall k | 0 <= k < |rest| ensures rest[k] != s[0] {
        assert s[k + 1] == rest[k];
      }
    }
  }

  /** How often the address is still on some worker's list. */
  function Pending(workers: seq<Worker>, a: int): nat {
    if workers == [] then 0 else Count(workers[0].todo, a) + Pending(workers[1..], a)
  }

  lemma {:induction false} PendingUpdate(workers: seq<Worker>, t: nat, w: Worker, a: int)
    requires t < |workers|
    ensures Pending(workers[t := w], a) == Pending(workers, a) - Count(workers[t].todo, a) + Count(w.todo, a)
  {
    var updated := workers[t := w];
    if t == 0 {
      assert updated[1..] == workers[1..];
    } else {
      assert updated[1..] == workers[1..][t - 1 := w];
      PendingUpdate(workers[1..], t - 1, w, a);
    }
  }

  lemma {:induction false} TotalWorkUpdate(workers: seq<Worker>, t: nat, w: Worker)
    requires t < |workers|
    ensures TotalWork(workers[t := w]) == TotalWork(workers) - Work(workers[t]) + Work(w)
  {
    var updated := workers[t := w];
    if t == 0 {
      assert updated[1..] == workers[1..];
    } else {
      assert updated[1..] == workers[1..][t - 1 := w];
      TotalWorkUpdate(workers[1..], t - 1, w);
    }
  }

  lemma {:induction false} WorkIsNatural(workers: seq<Worker>, reach: int -> bool)
    requires AllSound(workers, reach)
    ensures TotalWork(workers) >= 0
  {
    if workers != [] {
      assert Sound(workers[0], reach);
      WorkIsNatural(workers[1..], reach);
    }
  }

  lemma {:induction false} NothingPending(workers: seq<Worker>, a: int)
    requires AllFinished(workers)
    ensures Pending(workers, a) == 0
  {
    if workers != [] {
      assert Finished(workers[0]);
      NothingPending(workers[1..], a);
    }
  }

  // ---- What one step keeps ------------------------------------------------------

  /** An address leaves the lists or is posted, and is posted only when it answered; while
      the scan is active an address that answers is not lost. */
  lemma AdvanceCounts(w: Worker, active: bool, reach: int -> bool, a: int)
    requires !Finished(w) && Sound(w, reach)
    ensures Count(Advance(w, active, reach).todo, a) + Count(Emitted(w), Host(a)) <= Count(w.todo, a)
    ensures !reach(a) ==> Count(Emitted(w), Host(a)) == 0
    ensures active && (reach(a) || a != w.todo[0]) ==>
              Count(Advance(w, active, reach).todo, a) + Count(Emitted(w), Host(a)) == Count(w.todo, a)
    ensures Count(Emitted(w), Null) == 0 && forall h :: Count(Emitted(w), Entry(h)) == 0
  {
  }

  /** One step of worker `t`, on the crew and on the events posted so far. */
  lemma StepCounts(workers: seq<Worker>, posted: seq<Event>, t: nat, active: bool, reach: int -> bool, a: int)
    requires t < |workers| && !Finished(workers[t]) && AllSound(workers, reach)
    ensures var w := workers[t];
            var after, events := workers[t := Advance(w, active, reach)], posted + Emitted(w);
            && AllSound(after, reach)
            && Pending(after, a) + Count(events, Host(a)) <= Pending(workers, a) + Count(posted, Host(a))
            && (!reach(a) ==> Count(events, Host(a)) == Count(posted, Host(a)))
            && (active && (reach(a) || a != w.todo[0]) ==>
                  Pending(after, a) + Count(events, Host(a)) == Pending(workers, a) + Count(posted, Host(a)))
            && Count(events, Null) == Count(posted, Null)
            && (forall h :: Count(events, Entry(h)) == Count(posted, Entry(h)))
            && TotalWork(after) < TotalWork(workers)
  {
    var w := workers[t];
    assert Sound(w, reach);
    AdvanceCounts(w, active, reach, a);
    PendingUpdate(workers, t, Advance(w, active, reach), a);
    TotalWorkUpdate(workers, t, Advance(w, active, reach));
    CountAppend(posted, Emitted(w), Host(a));
    CountAppend(posted, Emitted(w), Null);
    forall h ensures Count(posted + Emitted(w), Entry(h)) == Count(posted, Entry(h)) {
      CountAppend(posted, Emitted(w), Entry(h));
    }
    hide Advance, Emitted, Count, Pending, TotalWork, Work, Sound;
  }

  /** A worker that is not finished can step, so a crew that is not finished can. */
  lemma SomeWorkerSteps(workers: seq<Worker>) returns (t: nat)
    requires !AllFinished(workers)
    ensures t < |workers| && !Finished(workers[t])
  {
    t :| 0 <= t < |workers| && !Finished(workers[t]);
  }

  // ---- After a stop ---------------------------------------------------------------

  /** Past the last check for cancellation, with `a` at hand. */
  predicate Committed(w: Worker, a: int) {
    w.stage.Posting? && w.todo != [] && w.todo[0] == a
  }

  /** How many workers are about to post the address. */
  function OnTheWay(workers: seq<Worker>, a: int): nat {
    if workers == [] then 0 else (if Committed(workers[0], a) then 1 else 0) + OnTheWay(workers[1..], a)
  }

  /** How many steps a stopped worker makes, at most: it looks at the flag once more. */
  function StepsLeft(w: Worker): nat {
    if Finished(w) then 0 else if w.stage.Looping? then 1 else 2
  }

  function TotalStepsLeft(workers: seq<Worker>): (n: nat)
    ensures n <= 2 * |workers|
  {
    if workers == [] then 0 else StepsLeft(workers[0]) + TotalStepsLeft(workers[1..])
  }

  /** One step of a stopped worker posts only what it was about to post, and does not depend on
      who answers. */
  lemma StoppedStep(w: Worker, reach: int -> bool, reach': int -> bool, a: int)
    requires !Finished(w)
    ensures var next := Advance(w, false, reach);
            && next == Advance(w, false, reach')
            && Count(Emitted(w), Host(a)) + (if Committed(next, a) then 1 else 0) == (if Committed(w, a) then 1 else 0)
            && StepsLeft(next) < StepsLeft(w)
  {
  }

  lemma {:induction false} StoppedUpdate(workers: seq<Worker>, t: nat, w: Worker, a: int)
    requires t < |workers|
    ensures OnTheWay(workers[t := w], a) == OnTheWay(workers, a)
              - (if Committed(workers[t], a) then 1 else 0) + (if Committed(w, a) then 1 else 0)
    ensures TotalStepsLeft(workers[t := w]) == TotalStepsLeft(workers) - StepsLeft(workers[t]) + StepsLeft(w)
  {
    hide Committed, StepsLeft;
    var updated := workers[t := w];
    if t == 0 {
      assert updated[1..] == workers[1..];
    } else {
      assert updated[1..] == workers[1..][t - 1 := w];
      StoppedUpdate(workers[1..], t - 1, w, a);
    }
  }

  lemma StoppedCrew(workers: seq<Worker>, posted: seq<Event>, t: nat, reach: int -> bool, a: int)
    requires t < |workers| && !Finished(workers[t])
    ensures var w := workers[t];
            var after, events := workers[t := Advance(w, false, reach)], posted + Emitted(w);
            && Count(events, Host(a)) + OnTheWay(after, a) == Count(posted, Host(a)) + OnTheWay(workers, a)
            && TotalStepsLeft(after) < TotalStepsLeft(workers)
  {
    var w := workers[t];
    StoppedStep(w, reach, reach, a);
    StoppedUpdate(workers, t, Advance(w, false, reach), a);
    CountAppend(posted, Emitted(w), Host(a));
    hide Advance, Emitted, Count, Committed, OnTheWay, StepsLeft, TotalStepsLeft;
  }

  lemma {:induction false} NoneOnTheWay(workers: seq<Worker>, a: int)
    requires AllFinished(workers)
    ensures OnTheWay(workers, a) == 0
  {
    if workers != [] {
      assert Finished(workers[0]);
      NoneOnTheWay(workers[1..], a);
    }
  }
}
