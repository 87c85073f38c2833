/** The counting-out elimination engine of `josephusExecution$`: a roster of
    soldier ids and a counter, traversed pass after pass; every soldier
    examined while the counter stands at `stepSize - 1` is executed, every
    other one is passed over and the counter moves on. */
module Engine {
  import opened JsArray

  type SoldierId = int

  datatype Status = ALIVE | DEAD

  /** One `[soldierId, status]` value pushed to the observer. */
  datatype Event = Event(id: SoldierId, status: Status)

  /** The engine's round state: the working roster and the counter. */
  datatype State = State(alive: seq<SoldierId>, counter: int)

  /** What one pass yields: the events it emitted, in order, and the state it
      hands to the next pass. */
  datatype PassResult = PassResult(events: seq<Event>, state: State)

  /** `_.range(0, n)`. */
  function Range(n: nat): (r: seq<SoldierId>)
    ensures |r| == n && forall i :: 0 <= i < n ==> r[i] == i
  {
    seq(n, i => i)
  }

  predicate NoDuplicates(xs: seq<SoldierId>)
  {
    forall i, j :: 0 <= i < j < |xs| ==> xs[i] != xs[j]
  }

  predicate Increasing(xs: seq<SoldierId>)
  {
    forall i, j :: 0 <= i < j < |xs| ==> xs[i] < xs[j]
  }

  /** `tail` is the part of the pass snapshot not yet examined; it sits at the
      end of the working roster. */
  predicate IsSuffix(tail: seq<SoldierId>, xs: seq<SoldierId>)
  {
    |tail| <= |xs| && xs[|xs| - |tail|..] == tail
  }

  /** The roster copy the executing branch builds:
      `[...alive.slice(0, i), ...alive.slice(i + 1)]`. */
  function RemoveAt(alive: seq<SoldierId>, i: int): (r: seq<SoldierId>)
    ensures 0 <= i < |alive| ==> r == alive[..i] + alive[i + 1..]
    ensures i == -1 && alive != [] ==> r == alive[..|alive| - 1] + alive
  {
    Slice(alive, 0, i) + SliceFrom(alive, i + 1)
  }

  /** The reducer of one pass, applied to soldier `id`: the event it emits
      and the state it returns. */
  function Step(s: State, id: SoldierId, stepSize: int): (Event, State)
  {
    if s.counter == stepSize - 1 then
      var indexOfExecuted := IndexOf(s.alive, id);
      (Event(id, DEAD), State(RemoveAt(s.alive, indexOfExecuted), 0))
    else
      (Event(id, ALIVE), State(s.alive, s.counter + 1))
  }

  /** `_.reduce(ids, reducer, s)`: folds the reducer over the snapshot `ids`,
      left to right, one event per id. */
  function Pass(ids: seq<SoldierId>, s: State, stepSize: int): (r: PassResult)
    ensures |r.events| == |ids|
  {
    if ids == [] then PassResult([], s)
    else
      var (e, s1) := Step(s, ids[0], stepSize);
      var rest := Pass(ids[1..], s1, stepSize);
      PassResult([e] + rest.events, rest.state)
  }

  /** A pass emits exactly one event per id of the snapshot, in snapshot
      order. */
  lemma {:induction false} PassFollowsSnapshot(ids: seq<SoldierId>, s: State, stepSize: int)
    ensures var ev := Pass(ids, s, stepSize).events;
      |ev| == |ids| && forall i :: 0 <= i < |ids| ==> ev[i].id == ids[i]
  {
    if ids != [] {
      var (e, s1) := Step(s, ids[0], stepSize);
      PassFollowsSnapshot(ids[1..], s1, stepSize);
      var ev := Pass(ids, s, stepSize).events;
      var rest := Pass(ids[1..], s1, stepSize).events;
      assert ev == [e] + rest;
      forall i | 0 <= i < |ids|
        ensures ev[i].id == ids[i]
      {
        if i > 0 {
          assert ev[i] == rest[i - 1];
        }
      }
    }
  }

  /** The state invariant kept between any two steps of a run. */
  predicate RoundInvariant(s: State, stepSize: int)
  {
    stepSize >= 1 && 0 <= s.counter <= stepSize - 1 && NoDuplicates(s.alive)
  }

  /** Decreases by exactly one with every event emitted. */
  function Measure(s: State, stepSize: int): int
  {
    |s.alive| * stepSize + (stepSize - 1 - s.counter)
  }

  /** All events of a run from state `s`: a pass over the current roster,
      repeated until the roster is empty. */
  function RunFrom(s: State, stepSize: int): seq<Event>
    requires RoundInvariant(s, stepSize)
    decreases Measure(s, stepSize)
  {
    if s.alive == [] then []
    else
      var p := Pass(s.alive, s, stepSize);
      PassInvariant(s.alive, s, stepSize);
      MeasureNonNegative(s, stepSize);
      p.events + RunFrom(p.state, stepSize)
  }

  lemma MeasureNonNegative(s: State, stepSize: int)
    requires RoundInvariant(s, stepSize)
    ensures Measure(s, stepSize) >= 0
  {
    assert |s.alive| * stepSize >= 0;
  }

  /** The whole event sequence of `josephusExecution$(n, stepSize)`. */
  function Josephus(n: nat, stepSize: int): seq<Event>
    requires stepSize >= 1
  {
    RunFrom(State(Range(n), 0), stepSize)
  }

  // ---------------------------------------------------------------------
  // Counting events

  /** Number of DEAD events for soldier `x`. */
  function DeathsOf(events: seq<Event>, x: SoldierId): nat
  {
    if events == [] then 0
    else (if events[0] == Event(x, DEAD) then 1 else 0) + DeathsOf(events[1..], x)
  }

  function CountStatus(events: seq<Event>, st: Status): nat
  {
    if events == [] then 0
    else (if events[0].status == st then 1 else 0) + CountStatus(events[1..], st)
  }

  lemma {:induction false} DeathsOfAppend(a: seq<Event>, b: seq<Event>, x: SoldierId)
    ensures DeathsOf(a + b, x) == DeathsOf(a, x) + DeathsOf(b, x)
  {
    if a != [] {
      assert (a + b)[1..] == a[1..] + b;
      DeathsOfAppend(a[1..], b, x);
    } else {
      assert a + b == b;
    }
  }

  lemma {:induction false} CountStatusAppend(a: seq<Event>, b: seq<Event>, st: Status)
    ensures CountStatus(a + b, st) == CountStatus(a, st) + CountStatus(b, st)
  {
    if a != [] {
      assert (a + b)[1..] == a[1..] + b;
      CountStatusAppend(a[1..], b, st);
    } else {
      assert a + b == b;
    }
  }

  lemma {:induction false} CountStatusSplit(events: seq<Event>)
    ensures CountStatus(events, ALIVE) + CountStatus(events, DEAD) == |events|
  {
    if events != [] {
      CountStatusSplit(events[1..]);
    }
  }

  // ---------------------------------------------------------------------
  // One step

  lemma RemoveAtKeeps(xs: seq<SoldierId>, i: int)
    requires 0 <= i < |xs| && NoDuplicates(xs)
    ensures NoDuplicates(xs[..i] + xs[i + 1..])
    ensures Increasing(xs) ==> Increasing(xs[..i] + xs[i + 1..])
    ensures forall y :: y in xs[..i] + xs[i + 1..] <==> y in xs && y != xs[i]
  {
    var r := xs[..i] + xs[i + 1..];
    assert forall j :: 0 <= j < |r| ==> r[j] == if j < i then xs[j] else xs[j + 1];
    forall y
      ensures y in r <==> y in xs && y != xs[i]
    {
      if y in xs && y != xs[i] {
        var j :| 0 <= j < |xs| && xs[j] == y;
        assert r[if j < i then j else j - 1] == y;
      }
    }
  }

  /** The step on the first not-yet-examined id of a pass: that id sits at
      position `|alive| - |tail|` of the working roster and indexOf finds it
      there; the step emits DEAD exactly when the counter is `stepSize - 1`,
      removing just that id and resetting the counter; otherwise it emits
      ALIVE, keeps the roster and advances the counter by one. */
  lemma StepSpec(tail: seq<SoldierId>, s: State, stepSize: int)
    requires tail != [] && IsSuffix(tail, s.alive) && NoDuplicates(s.alive)
    ensures var i := |s.alive| - |tail|;
      var (e, s') := Step(s, tail[0], stepSize);
      && s.alive[i] == tail[0]
      && IndexOf(s.alive, tail[0]) == i
      && e.id == tail[0]
      && (e.status == DEAD <==> s.counter == stepSize - 1)
      && (e.status == DEAD ==> s' == State(s.alive[..i] + s.alive[i + 1..], 0))
      && (e.status == ALIVE ==> s' == State(s.alive, s.counter + 1))
  {
    var i := |s.alive| - |tail|;
    assert s.alive[i] == s.alive[i..][0] == tail[0];
  }

  /** After that step the rest of the snapshot is still the end of the
      working roster, and the roster still has no duplicates. */
  lemma StepKeepsRoster(tail: seq<SoldierId>, s: State, stepSize: int)
    requires tail != [] && IsSuffix(tail, s.alive) && NoDuplicates(s.alive)
    ensures var s' := Step(s, tail[0], stepSize).1;
      IsSuffix(tail[1..], s'.alive) && NoDuplicates(s'.alive)
  {
    StepSpec(tail, s, stepSize);
    var i := |s.alive| - |tail|;
    if s.counter == stepSize - 1 {
      var r := s.alive[..i] + s.alive[i + 1..];
      RemoveAtKeeps(s.alive, i);
      assert r[|r| - |tail[1..]|..] == s.alive[i + 1..] == tail[1..];
    } else {
      assert s.alive[|s.alive| - |tail[1..]|..] == s.alive[i..][1..];
    }
  }

  /** The roster after the step holds the same ids less the executed one. */
  lemma StepMembers(tail: seq<SoldierId>, s: State, stepSize: int)
    requires tail != [] && IsSuffix(tail, s.alive) && NoDuplicates(s.alive)
    ensures var (e, s') := Step(s, tail[0], stepSize);
      forall y :: y in s'.alive <==> y in s.alive && (y != tail[0] || e.status == ALIVE)
  {
    StepSpec(tail, s, stepSize);
    if s.counter == stepSize - 1 {
      RemoveAtKeeps(s.alive, |s.alive| - |tail|);
    }
  }

  /** The step keeps an increasing roster increasing. */
  lemma StepKeepsIncreasing(tail: seq<SoldierId>, s: State, stepSize: int)
    requires tail != [] && IsSuffix(tail, s.alive) && Increasing(s.alive)
    ensures Increasing(Step(s, tail[0], stepSize).1.alive)
  {
    StepSpec(tail, s, stepSize);
    if s.counter == stepSize - 1 {
      RemoveAtKeeps(s.alive, |s.alive| - |tail|);
    }
  }

  // ---------------------------------------------------------------------
  // One pass

  /** Every indexOf lookup made by the executing branch during the fold. */
  predicate LookupsSucceed(ids: seq<SoldierId>, s: State, stepSize: int)
  {
    ids == [] ||
    ((s.counter == stepSize - 1 ==> IndexOf(s.alive, ids[0]) >= 0)
     && LookupsSucceed(ids[1..], Step(s, ids[0], stepSize).1, stepSize))
  }

  /** Within a pass over the roster snapshot, the executed id is always still
      in the working roster, so indexOf never answers -1. */
  lemma {:induction false} PassFindsEveryId(ids: seq<SoldierId>, s: State, stepSize: int)
    requires IsSuffix(ids, s.alive) && NoDuplicates(s.alive)
    ensures LookupsSucceed(ids, s, stepSize)
  {
    if ids != [] {
      StepSpec(ids, s, stepSize);
      StepKeepsRoster(ids, s, stepSize);
      PassFindsEveryId(ids[1..], Step(s, ids[0], stepSize).1, stepSize);
    }
  }

  /** Removing one soldier lowers `|alive| * stepSize` by `stepSize`. */
  lemma MulPred(n: int, k: int)
    ensures (n - 1) * k == n * k - k
  {
  }

  /** Each step keeps the counter in [0, stepSize - 1] and lowers the
      measure by exactly one. */
  lemma StepMeasure(tail: seq<SoldierId>, s: State, stepSize: int)
    requires tail != [] && IsSuffix(tail, s.alive) && RoundInvariant(s, stepSize)
    ensures var s' := Step(s, tail[0], stepSize).1;
      && 0 <= s'.counter <= stepSize - 1
      && Measure(s', stepSize) == Measure(s, stepSize) - 1
  {
    StepSpec(tail, s, stepSize);
    var s' := Step(s, tail[0], stepSize).1;
    var n := |s.alive|;
    if s.counter == stepSize - 1 {
      assert |s'.alive| == n - 1 && s'.counter == 0;
      MulPred(n, stepSize);
    }
  }

  /** A pass keeps the counter in [0, stepSize - 1], keeps the roster free of
      duplicates (and increasing, if it was), never adds an id to it, and
      lowers the measure by the number of ids examined. */
  lemma {:induction false} PassInvariant(ids: seq<SoldierId>, s: State, stepSize: int)
    requires IsSuffix(ids, s.alive) && RoundInvariant(s, stepSize)
    ensures var r := Pass(ids, s, stepSize).state;
      && RoundInvariant(r, stepSize)
      && Measure(r, stepSize) == Measure(s, stepSize) - |ids|
      && (Increasing(s.alive) ==> Increasing(r.alive))
      && (forall y :: y in r.alive ==> y in s.alive)
  {
    if ids != [] {
      var s1 := Step(s, ids[0], stepSize).1;
      StepKeepsRoster(ids, s, stepSize);
      StepMembers(ids, s, stepSize);
      StepMeasure(ids, s, stepSize);
      if Increasing(s.alive) {
        StepKeepsIncreasing(ids, s, stepSize);
      }
      PassInvariant(ids[1..], s1, stepSize);
      assert Pass(ids, s, stepSize).state == Pass(ids[1..], s1, stepSize).state;
    }
  }

  /** Bookkeeping of executions in a pass: every id of the roster either
      survives the pass or has exactly one DEAD event in it, never both; the
      number of DEAD events is the number of ids removed; and a pass that
      empties the roster ended on an execution, so its counter is 0. */
  lemma {:induction false} PassDeaths(ids: seq<SoldierId>, s: State, stepSize: int)
    requires IsSuffix(ids, s.alive) && NoDuplicates(s.alive)
    ensures var p := Pass(ids, s, stepSize);
      && (forall x :: (if x in s.alive then 1 else 0)
                      == (if x in p.state.alive then 1 else 0) + DeathsOf(p.events, x))
      && CountStatus(p.events, DEAD) == |s.alive| - |p.state.alive|
      && (ids != [] && p.state.alive == [] ==> p.state.counter == 0)
  {
    if ids != [] {
      StepSpec(ids, s, stepSize);
      StepKeepsRoster(ids, s, stepSize);
      StepMembers(ids, s, stepSize);
      var (e, s1) := Step(s, ids[0], stepSize);
      var rest := Pass(ids[1..], s1, stepSize);
      PassDeaths(ids[1..], s1, stepSize);
      var p := Pass(ids, s, stepSize);
      assert p.events == [e] + rest.events;
      forall x
        ensures (if x in s.alive then 1 else 0)
                == (if x in p.state.alive then 1 else 0) + DeathsOf(p.events, x)
      {
        DeathsOfAppend([e], rest.events, x);
      }
      CountStatusAppend([e], rest.events, DEAD);
      if e.status == DEAD {
        assert |s1.alive| == |s.alive| - 1;
      }
    }
  }

  /** With step size 1 every examined id is executed: the pass strips the
      whole snapshot off the roster and leaves the counter at 0. */
  lemma {:induction false} PassStepOneState(ids: seq<SoldierId>, s: State)
    requires IsSuffix(ids, s.alive) && NoDuplicates(s.alive) && s.counter == 0
    ensures Pass(ids, s, 1).state == State(s.alive[..|s.alive| - |ids|], 0)
  {
    if ids == [] {
      assert s.alive[..|s.alive|] == s.alive;
    } else {
      var i := |s.alive| - |ids|;
      StepSpec(ids, s, 1);
      StepKeepsRoster(ids, s, 1);
      var s1 := Step(s, ids[0], 1).1;
      PassStepOneState(ids[1..], s1);
      assert s1.alive[..|s1.alive| - |ids[1..]|] == s.alive[..i];
    }
  }

  /** ... and emits DEAD for each id of the snapshot, in order. */
  lemma {:induction false} PassStepOneEvents(ids: seq<SoldierId>, s: State)
    requires IsSuffix(ids, s.alive) && NoDuplicates(s.alive) && s.counter == 0
    ensures forall i :: 0 <= i < |ids| ==> Pass(ids, s, 1).events[i] == Event(ids[i], DEAD)
  {
    if ids != [] {
      StepSpec(ids, s, 1);
      StepKeepsRoster(ids, s, 1);
      var s1 := Step(s, ids[0], 1).1;
      var rest := Pass(ids[1..], s1, 1);
      PassStepOneEvents(ids[1..], s1);
      var ev := Pass(ids, s, 1).events;
      assert ev == [Event(ids[0], DEAD)] + rest.events;
      forall j | 0 <= j < |ids|
        ensures ev[j] == Event(ids[j], DEAD)
      {
        if j > 0 {
          assert ev[j] == rest.events[j - 1];
        }
      }
    }
  }

  /** What the driver needs to take one step of the fold over the ids
      `tail` still to be examined: the looked-up id is found, the invariant
      and the suffix property carry over, and the rest of the pass is this
      step's event followed by the pass over `tail[1..]`. */
  lemma StepAdvance(tail: seq<SoldierId>, s: State, stepSize: int)
    requires tail != [] && IsSuffix(tail, s.alive) && RoundInvariant(s, stepSize)
    ensures var (e, s1) := Step(s, tail[0], stepSize);
      && (s.counter == stepSize - 1 ==> IndexOf(s.alive, tail[0]) >= 0)
      && IsSuffix(tail[1..], s1.alive) && RoundInvariant(s1, stepSize)
      && Pass(tail, s, stepSize) ==
           PassResult([e] + Pass(tail[1..], s1, stepSize).events, Pass(tail[1..], s1, stepSize).state)
  {
    StepSpec(tail, s, stepSize);
    StepKeepsRoster(tail, s, stepSize);
    StepMeasure(tail, s, stepSize);
  }

  // ---------------------------------------------------------------------
  // A whole run

  /** A run from a non-empty roster emits `|alive| * stepSize - counter`
      events. */
  lemma {:induction false} RunLength(s: State, stepSize: int)
    requires RoundInvariant(s, stepSize) && s.alive != []
    ensures |RunFrom(s, stepSize)| == |s.alive| * stepSize - s.counter
    decreases Measure(s, stepSize)
  {
    var p := Pass(s.alive, s, stepSize);
    PassInvariant(s.alive, s, stepSize);
    PassDeaths(s.alive, s, stepSize);
    MeasureNonNegative(s, stepSize);
    var tail := RunFrom(p.state, stepSize);
    assert RunFrom(s, stepSize) == p.events + tail;
    var r := p.state;
    if r.alive != [] {
      RunLength(r, stepSize);
      assert |tail| == Measure(r, stepSize) - (stepSize - 1);
    } else {
      assert r.counter == 0 && |r.alive| * stepSize == 0;
      assert Measure(r, stepSize) == stepSize - 1;
    }
  }

  /** Over a run, every id of the starting roster gets exactly one DEAD event
      and no other id gets one; every event names an id of the starting
      roster; the DEAD events number as many as the roster had ids. */
  lemma {:induction false} RunDeaths(s: State, stepSize: int)
    requires RoundInvariant(s, stepSize)
    ensures var ev := RunFrom(s, stepSize);
      && (forall x :: DeathsOf(ev, x) == if x in s.alive then 1 else 0)
      && (forall i :: 0 <= i < |ev| ==> ev[i].id in s.alive)
      && CountStatus(ev, DEAD) == |s.alive|
    decreases Measure(s, stepSize)
  {
    if s.alive != [] {
      var p := Pass(s.alive, s, stepSize);
      PassInvariant(s.alive, s, stepSize);
      PassDeaths(s.alive, s, stepSize);
      MeasureNonNegative(s, stepSize);
      RunDeaths(p.state, stepSize);
      PassFollowsSnapshot(s.alive, s, stepSize);
      var ev := RunFrom(s, stepSize);
      var tail := RunFrom(p.state, stepSize);
      assert ev == p.events + tail;
      forall x
        ensures DeathsOf(ev, x) == if x in s.alive then 1 else 0
      {
        DeathsOfAppend(p.events, tail, x);
      }
      CountStatusAppend(p.events, tail, DEAD);
      forall i | 0 <= i < |ev|
        ensures ev[i].id in s.alive
      {
        if i >= |p.events| {
          assert ev[i] == tail[i - |p.events|];
        }
      }
    }
  }

  /** Once an id has been executed, no later event of the run names it. */
  predicate NothingAfterDeath(ev: seq<Event>)
  {
    forall i, j :: 0 <= i < j < |ev| && ev[i].status == DEAD ==> ev[j].id != ev[i].id
  }

  lemma DeathCounted(ev: seq<Event>, i: nat)
    requires i < |ev| && ev[i].status == DEAD
    ensures DeathsOf(ev, ev[i].id) >= 1
  {
    DeathsOfAppend(ev[..i], ev[i..], ev[i].id);
    assert ev == ev[..i] + ev[i..];
  }

  /** Concatenating a stretch of events in which no id repeats, none of
      whose executed ids reappears later, with a stretch that already has
      the property. */
  lemma NothingAfterDeathAppend(a: seq<Event>, b: seq<Event>)
    requires forall i, j :: 0 <= i < j < |a| ==> a[i].id != a[j].id
    requires forall i, j :: 0 <= i < |a| && 0 <= j < |b| && a[i].status == DEAD ==> b[j].id != a[i].id
    requires NothingAfterDeath(b)
    ensures NothingAfterDeath(a + b)
  {
    var ev := a + b;
    forall i, j | 0 <= i < j < |ev| && ev[i].status == DEAD
      ensures ev[j].id != ev[i].id
    {
      if j < |a| {
        assert ev[i] == a[i] && ev[j] == a[j];
      } else if i < |a| {
        assert ev[i] == a[i] && ev[j] == b[j - |a|];
      } else {
        assert ev[i] == b[i - |a|] && ev[j] == b[j - |a|];
      }
    }
  }

  lemma {:induction false} RunNothingAfterDeath(s: State, stepSize: int)
    requires RoundInvariant(s, stepSize)
    ensures NothingAfterDeath(RunFrom(s, stepSize))
    decreases Measure(s, stepSize)
  {
    if s.alive != [] {
      var p := Pass(s.alive, s, stepSize);
      PassInvariant(s.alive, s, stepSize);
      PassDeaths(s.alive, s, stepSize);
      MeasureNonNegative(s, stepSize);
      RunNothingAfterDeath(p.state, stepSize);
      RunDeaths(p.state, stepSize);
      PassFollowsSnapshot(s.alive, s, stepSize);
      var tail := RunFrom(p.state, stepSize);
      assert RunFrom(s, stepSize) == p.events + tail;
      forall i, j | 0 <= i < |p.events| && 0 <= j < |tail| && p.events[i].status == DEAD
        ensures tail[j].id != p.events[i].id
      {
        DeathCounted(p.events, i);
      }
      NothingAfterDeathAppend(p.events, tail);
    }
  }

  // ---------------------------------------------------------------------
  // Statements about josephusExecution$(n, stepSize)

  /** The run over `[0..n)` kills every soldier exactly once and nobody else,
      leaves no survivor, never names a soldier after its execution, and emits
      `n * stepSize` events of which `n * (stepSize - 1)` are ALIVE. */
  lemma JosephusTheorem(n: nat, stepSize: int)
    requires stepSize >= 1
    ensures var ev := Josephus(n, stepSize);
      && |ev| == n * stepSize
      && CountStatus(ev, DEAD) == n
      && CountStatus(ev, ALIVE) == n * (stepSize - 1)
      && (forall x :: DeathsOf(ev, x) == if 0 <= x < n then 1 else 0)
      && (forall i :: 0 <= i < |ev| ==> 0 <= ev[i].id < n)
      && NothingAfterDeath(ev)
  {
    var s := State(Range(n), 0);
    var ev := Josephus(n, stepSize);
    if n > 0 {
      RunLength(s, stepSize);
    }
    RunDeaths(s, stepSize);
    RunNothingAfterDeath(s, stepSize);
    CountStatusSplit(ev);
    forall x | 0 <= x < n
      ensures x in s.alive
    {
      assert s.alive[x] == x;
    }
  }

  /** With step size 1 soldiers die in circle order, all in the first pass. */
  lemma JosephusStepOne(n: nat)
    ensures var ev := Josephus(n, 1);
      |ev| == n && forall i :: 0 <= i < n ==> ev[i] == Event(i, DEAD)
  {
    var s := State(Range(n), 0);
    if n > 0 {
      PassStepOneState(s.alive, s);
      PassStepOneEvents(s.alive, s);
      PassInvariant(s.alive, s, 1);
      var p := Pass(s.alive, s, 1);
      assert p.state.alive == [];
      assert Josephus(n, 1) == p.events + RunFrom(p.state, 1);
    }
  }

  /** No soldiers: the run completes at once, with no event. */
  lemma ExampleNoSoldiers(stepSize: int)
    requires stepSize >= 1
    ensures Josephus(0, stepSize) == []
  {
    assert Range(0) == [];
  }

  /** A pass over the roster `[x]` alone. */
  lemma LonePass(x: SoldierId, counter: int, stepSize: int)
    ensures Pass([x], State([x], counter), stepSize) ==
      if counter == stepSize - 1 then PassResult([Event(x, DEAD)], State([], 0))
      else PassResult([Event(x, ALIVE)], State([x], counter + 1))
  {
    assert [x][1..] == [];
    if counter == stepSize - 1 {
      assert IndexOf([x], x) == 0;
      assert RemoveAt([x], 0) == [];
    }
  }

  /** A lone soldier with step size 3 is passed over twice, then executed. */
  lemma ExampleLoneSoldier()
    ensures Josephus(1, 3) == [Event(0, ALIVE), Event(0, ALIVE), Event(0, DEAD)]
  {
    assert Range(1) == [0];
    LonePass(0, 0, 3);
    LonePass(0, 1, 3);
    LonePass(0, 2, 3);
    assert RunFrom(State([0], 2), 3) == [Event(0, DEAD)];
    assert RunFrom(State([0], 1), 3) == [Event(0, ALIVE), Event(0, DEAD)];
  }

  /** Three soldiers with step size 2: soldier 1 dies in the first pass,
      soldier 0 in the second, and soldier 2, alone, in the third. */
  lemma ExampleThreeSoldiers()
    ensures Josephus(3, 2) ==
      [Event(0, ALIVE), Event(1, DEAD), Event(2, ALIVE),
       Event(0, DEAD), Event(2, ALIVE),
       Event(2, DEAD)]
  {
    assert Range(3) == [0, 1, 2];
    ThreeSoldiers(0, 1, 2);
  }

  /** The same run for any three distinct ids. */
  lemma ThreeSoldiers(a: SoldierId, b: SoldierId, c: SoldierId)
    requires a != b && b != c && a != c
    ensures RunFrom(State([a, b, c], 0), 2) ==
      [Event(a, ALIVE), Event(b, DEAD), Event(c, ALIVE),
       Event(a, DEAD), Event(c, ALIVE),
       Event(c, DEAD)]
  {
    var s := State([a, b, c], 0);
    FirstPassOfThree(a, b, c);
    LastPassesOfThree(a, c);
    RunUnfold(s, 2);
    var first := [Event(a, ALIVE), Event(b, DEAD), Event(c, ALIVE)];
    var rest := [Event(a, DEAD), Event(c, ALIVE), Event(c, DEAD)];
    assert RunFrom(s, 2) == first + rest;
  }

  lemma LastPassesOfThree(a: SoldierId, c: SoldierId)
    requires a != c
    ensures RunFrom(State([a, c], 1), 2) == [Event(a, DEAD), Event(c, ALIVE), Event(c, DEAD)]
  {
    SecondPassOfThree(a, c);
    LonePass(c, 1, 2);
    RunUnfold(State([c], 1), 2);
    RunUnfold(State([a, c], 1), 2);
  }

  lemma FirstPassOfThree(a: SoldierId, b: SoldierId, c: SoldierId)
    requires a != b && b != c && a != c
    ensures Pass([a, b, c], State([a, b, c], 0), 2) ==
      PassResult([Event(a, ALIVE), Event(b, DEAD), Event(c, ALIVE)], State([a, c], 1))
  {
    var r := [a, b, c];
    assert r[1..] == [b, c] && r[1..][1..] == [c] && r[1..][1..][1..] == [];
    assert IndexOf(r, b) == 1;
    assert RemoveAt(r, 1) == [a, c];
    assert Step(State(r, 1), b, 2) == (Event(b, DEAD), State([a, c], 0));
    assert Pass([c], State([a, c], 0), 2) == PassResult([Event(c, ALIVE)], State([a, c], 1));
  }

  lemma SecondPassOfThree(a: SoldierId, c: SoldierId)
    requires a != c
    ensures Pass([a, c], State([a, c], 1), 2) ==
      PassResult([Event(a, DEAD), Event(c, ALIVE)], State([c], 1))
  {
    var q := [a, c];
    assert q[1..] == [c] && q[1..][1..] == [];
    assert IndexOf(q, a) == 0;
    assert RemoveAt(q, 0) == [c];
    assert Step(State(q, 1), a, 2) == (Event(a, DEAD), State([c], 0));
    assert Pass([c], State([c], 0), 2) == PassResult([Event(c, ALIVE)], State([c], 1));
  }

  /** One pass, then the rest of the run. */
  lemma RunUnfold(s: State, stepSize: int)
    requires RoundInvariant(s, stepSize) && s.alive != []
    ensures RoundInvariant(Pass(s.alive, s, stepSize).state, stepSize)
    ensures RunFrom(s, stepSize) ==
      Pass(s.alive, s, stepSize).events + RunFrom(Pass(s.alive, s, stepSize).state, stepSize)
  {
    PassInvariant(s.alive, s, stepSize);
  }

  /** What the driver needs to take one pass: the invariant carries over,
      the roster shrinks or else the counter grows, and the run is this
      pass's events followed by the rest. */
  lemma RunAdvance(s: State, stepSize: int)
    requires RoundInvariant(s, stepSize) && s.alive != []
    ensures var p := Pass(s.alive, s, stepSize);
      && RoundInvariant(p.state, stepSize)
      && (|p.state.alive| < |s.alive|
          || (|p.state.alive| == |s.alive| && p.state.counter > s.counter))
      && RunFrom(s, stepSize) == p.events + RunFrom(p.state, stepSize)
  {
    PassInvariant(s.alive, s, stepSize);
    PassDeaths(s.alive, s, stepSize);
    MeasureNonNegative(s, stepSize);
    MeasureNonNegative(Pass(s.alive, s, stepSize).state, stepSize);
    RunUnfold(s, stepSize);
  }

  /** The roster keeps the shape of a subsequence of `[0..n)`: its ids are
      in increasing order, the first at least 0 and the last below `n`. */
  predicate InRangeOrder(alive: seq<SoldierId>, n: nat)
  {
    Increasing(alive) && (alive != [] ==> 0 <= alive[0] && alive[|alive| - 1] < n)
  }

  /** Every id of such a roster lies in [0, n). */
  lemma InRangeOrderBounds(alive: seq<SoldierId>, n: nat)
    requires InRangeOrder(alive, n)
    ensures forall i :: 0 <= i < |alive| ==> 0 <= alive[i] < n
  {
    forall i | 0 <= i < |alive|
      ensures 0 <= alive[i] < n
    {
      assert alive[0] <= alive[i] <= alive[|alive| - 1];
    }
  }

  lemma RangeInRangeOrder(n: nat)
    ensures InRangeOrder(Range(n), n)
  {
  }

  lemma PassKeepsRangeOrder(s: State, stepSize: int, n: nat)
    requires RoundInvariant(s, stepSize) && InRangeOrder(s.alive, n)
    ensures InRangeOrder(Pass(s.alive, s, stepSize).state.alive, n)
  {
    PassInvariant(s.alive, s, stepSize);
    var r := Pass(s.alive, s, stepSize).state.alive;
    if r != [] {
      InRangeOrderBounds(s.alive, n);
      assert r[0] in s.alive && r[|r| - 1] in s.alive;
    }
  }

  /** The states a run from `s` passes through between passes: `s`, then
      the state each pass hands on, ending with the empty-roster state that
      completes the run. Every element but the last starts a pass. */
  ghost function PassStarts(s: State, stepSize: int): (r: seq<State>)
    requires RoundInvariant(s, stepSize)
    ensures |r| >= 1 && r[0] == s
    decreases Measure(s, stepSize)
  {
    if s.alive == [] then [s]
    else
      var next := Pass(s.alive, s, stepSize).state;
      PassInvariant(s.alive, s, stepSize);
      MeasureNonNegative(s, stepSize);
      [s] + PassStarts(next, stepSize)
  }

  /** The events of the passes started from the states `starts`, one pass
      after another. */
  ghost function PassesFrom(starts: seq<State>, stepSize: int): seq<Event>
  {
    if starts == [] then []
    else Pass(starts[0].alive, starts[0], stepSize).events + PassesFrom(starts[1..], stepSize)
  }

  /** A run is exactly the passes started from every state of `PassStarts`
      but the last, in order, so those states are the run's pass starts. */
  lemma {:induction false} RunIsPasses(s: State, stepSize: int)
    requires RoundInvariant(s, stepSize)
    ensures var starts := PassStarts(s, stepSize);
      RunFrom(s, stepSize) == PassesFrom(starts[..|starts| - 1], stepSize)
    decreases Measure(s, stepSize)
  {
    if s.alive != [] {
      var p := Pass(s.alive, s, stepSize);
      PassInvariant(s.alive, s, stepSize);
      MeasureNonNegative(s, stepSize);
      RunIsPasses(p.state, stepSize);
      var rest := PassStarts(p.state, stepSize);
      var starts := PassStarts(s, stepSize);
      assert starts == [s] + rest;
      assert starts[..|starts| - 1] == [s] + rest[..|rest| - 1];
      assert starts[..|starts| - 1][1..] == rest[..|rest| - 1];
    }
  }

  /** At the start of every pass of `josephusExecution$(n, stepSize)` the
      counter is in [0, stepSize - 1] and the roster is an increasing
      sequence of ids in [0, n), that is, a subsequence of `[0..n)`; the
      state the last pass leaves has an empty roster. */
  lemma JosephusRosters(n: nat, stepSize: int)
    requires stepSize >= 1
    ensures RoundInvariant(State(Range(n), 0), stepSize)
    ensures var starts := PassStarts(State(Range(n), 0), stepSize);
      && starts[|starts| - 1].alive == []
      && forall i :: 0 <= i < |starts| ==>
           RoundInvariant(starts[i], stepSize) && InRangeOrder(starts[i].alive, n)
  {
    RangeInRangeOrder(n);
    RostersFrom(State(Range(n), 0), stepSize, n);
  }

  /** The same from any state whose roster already has that shape. */
  lemma {:induction false} RostersFrom(s: State, stepSize: int, n: nat)
    requires RoundInvariant(s, stepSize) && InRangeOrder(s.alive, n)
    ensures var starts := PassStarts(s, stepSize);
      && |starts| >= 1 && starts[|starts| - 1].alive == []
      && forall i :: 0 <= i < |starts| ==>
           RoundInvariant(starts[i], stepSize) && InRangeOrder(starts[i].alive, n)
    decreases Measure(s, stepSize)
  {
    if s.alive != [] {
      var next := Pass(s.alive, s, stepSize).state;
      PassInvariant(s.alive, s, stepSize);
      MeasureNonNegative(s, stepSize);
      PassKeepsRangeOrder(s, stepSize, n);
      RostersFrom(next, stepSize, n);
      var rest := PassStarts(next, stepSize);
      assert PassStarts(s, stepSize) == [s] + rest;
      forall i | 0 < i < |rest| + 1
        ensures RoundInvariant(([s] + rest)[i], stepSize) && InRangeOrder(([s] + rest)[i].alive, n)
      {
        assert ([s] + rest)[i] == rest[i - 1];
      }
    }
  }
}
