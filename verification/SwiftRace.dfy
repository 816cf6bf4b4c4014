/**
 One scan whose test and clear of the handle are not one step (LanDeviceScanner.swift:57-63
 and 69-75): the body ends on a thread of its own while the main thread stops the scan.
 */
module SwiftRace {
  /** Not there yet; has seen the handle; through. The main thread, once through, may be asked
      to stop again. */
  datatype Stage = Before | Saw | Through

  datatype Race = Race(handle: bool, body: Stage, stop: Stage, nils: nat)

  datatype Step = BodyTest | BodyClear | StopTest | StopClear

  const STARTED := Race(true, Before, Before, 0)

  predicate Enabled(s: Race, step: Step) {
    match step
    case BodyTest => s.body.Before?
    case BodyClear => s.body.Saw?
    case StopTest => !s.stop.Saw?
    case StopClear => s.stop.Saw?
  }

  function Next(s: Race, step: Step): Race
    requires Enabled(s, step)
  {
    match step
    case BodyTest => s.(body := if s.handle then Saw else Through)
    case BodyClear => s.(handle := false, body := Through, nils := s.nils + 1)
    case StopTest => s.(stop := if s.handle then Saw else Through)
    case StopClear => s.(handle := false, stop := Through, nils := s.nils + 1)
  }

  predicate Possible(s: Race, steps: seq<Step>)
    decreases |steps|
  {
    steps == [] || (Enabled(s, steps[0]) && Possible(Next(s, steps[0]), steps[1..]))
  }

  function After(s: Race, steps: seq<Step>): Race
    requires Possible(s, steps)
    decreases |steps|
  {
    if steps == [] then s else After(Next(s, steps[0]), steps[1..])
  }

  /** At some point of the run the body and a stop have both seen the handle and neither has
      cleared it. */
  predicate Overlaps(s: Race, steps: seq<Step>)
    requires Possible(s, steps)
    decreases |steps|
  {
    (s.body.Saw? && s.stop.Saw?) || (steps != [] && Overlaps(Next(s, steps[0]), steps[1..]))
  }

  function Saws(s: Race): nat {
    (if s.body.Saw? then 1 else 0) + (if s.stop.Saw? then 1 else 0)
  }

  lemma {:induction false} RaceFrom(s: Race, steps: seq<Step>)
    requires Possible(s, steps) && s.handle == (s.nils == 0) && s.nils + Saws(s) <= 2
    ensures var end := After(s, steps);
            && end.handle == (end.nils == 0) && end.nils + Saws(end) <= 2
            && (s.nils + Saws(s) == 2 ==> end.nils + Saws(end) == 2)
            && (s.nils == 1 && Saws(s) == 0 ==> end.nils == 1 && Saws(end) == 0)
            && (s.nils > 0 && Saws(s) <= 1 ==> !Overlaps(s, steps))
            && (s.nils == 0 ==> (end.nils + Saws(end) == 2 <==> Overlaps(s, steps)))
    decreases |steps|
  {
    if steps != [] { RaceFrom(Next(s, steps[0]), steps[1..]); }
  }

  /** Once the body is through or a stop is, and neither is between its test and its clear, there
      has been one nil, or two. Two exactly when both have been between the two at once. */
  lemma TwoNilsIff(steps: seq<Step>)
    requires Possible(STARTED, steps)
    requires var end := After(STARTED, steps);
             Saws(end) == 0 && (end.body.Through? || end.stop.Through?)
    ensures After(STARTED, steps).nils == if Overlaps(STARTED, steps) then 2 else 1
  {
    RaceFrom(STARTED, steps);
    SomeNil(STARTED, steps);
  }

  lemma {:induction false} SomeNil(s: Race, steps: seq<Step>)
    requires Possible(s, steps) && s.handle == (s.nils == 0)
    requires s.body.Through? || s.stop.Through? ==> s.nils > 0
    ensures var end := After(s, steps); end.body.Through? || end.stop.Through? ==> end.nils > 0
    decreases |steps|
  {
    if steps != [] { SomeNil(Next(s, steps[0]), steps[1..]); }
  }

  /** A run with two. */
  lemma TwoNils()
    ensures var steps := [BodyTest, StopTest, BodyClear, StopClear];
            Possible(STARTED, steps) && After(STARTED, steps).nils == 2
  {
    var s1 := Next(STARTED, BodyTest);
    var s2 := Next(s1, StopTest);
    var s3 := Next(s2, BodyClear);
    var steps := [BodyTest, StopTest, BodyClear, StopClear];
    assert steps[1..][1..][1..][1..] == [];
    assert Possible(s3, [StopClear]) && After(s3, [StopClear]).nils == 2;
    assert steps[1..][1..][1..] == [StopClear];
  }
}
