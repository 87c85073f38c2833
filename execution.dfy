/** The driver of `josephusExecution$`: on subscription it runs the worker,
    which performs one pass over the current roster, pushing each event to
    the observer as it is produced, then runs again on the new state, and
    signals completion once the roster is empty. */
module Execution {
  import opened Engine
  import opened JsArray

  /** The subscriber the observable pushes to. As an Rx subscriber does, it
      ignores values pushed after it has completed. */
  class Observer {
    var events: seq<Event>
    var completed: bool

    constructor ()
      ensures events == [] && !completed
    {
      events := [];
      completed := false;
    }

    /** `observer.next(e)`. */
    method Next(e: Event)
      modifies this
      ensures completed == old(completed)
      ensures events == if old(completed) then old(events) else old(events) + [e]
    {
      if !completed {
        events := events + [e];
      }
    }

    /** `observer.complete()`. */
    method Complete()
      modifies this
      ensures completed && events == old(events)
    {
      completed := true;
    }
  }

  /** One call of the worker: the reduce over the
      roster snapshot, pushing each event to the observer as the reducer
      produces it. The observer receives the events of `Pass`, and the
      returned state is the one `Pass` hands on, which keeps the counter in
      [0, stepSize - 1] and the roster free of duplicates. At every executing
      step the id looked up is still in the working roster. */
  method WorkerPass(observer: Observer, s: State, stepSize: int) returns (r: State)
    requires RoundInvariant(s, stepSize)
    modifies observer
    ensures r == Pass(s.alive, s, stepSize).state
    ensures RoundInvariant(r, stepSize)
    ensures LookupsSucceed(s.alive, s, stepSize)
    ensures observer.completed == old(observer.completed)
    ensures observer.events ==
      old(observer.events) + if old(observer.completed) then [] else Pass(s.alive, s, stepSize).events
  {
    PassInvariant(s.alive, s, stepSize);
    PassFindsEveryId(s.alive, s, stepSize);
    ghost var before, wasCompleted := observer.events, observer.completed;
    ghost var pass := Pass(s.alive, s, stepSize);
    ghost var emitted: seq<Event> := [];
    var rest := s.alive;
    r := s;
    while rest != []
      invariant IsSuffix(rest, r.alive) && RoundInvariant(r, stepSize)
      invariant emitted + Pass(rest, r, stepSize).events == pass.events
      invariant Pass(rest, r, stepSize).state == pass.state
      invariant observer.completed == wasCompleted
      invariant wasCompleted ==> observer.events == before
      invariant !wasCompleted ==> observer.events == before + emitted
      decreases |rest|
    {
      var id := rest[0];
      StepAdvance(rest, r, stepSize);
      var (e, next) := Step(r, id, stepSize);
      assert r.counter == stepSize - 1 ==> IndexOf(r.alive, id) >= 0;
      ghost var after := Pass(rest[1..], next, stepSize);
      assert emitted + Pass(rest, r, stepSize).events == (emitted + [e]) + after.events;
      observer.Next(e);
      assert !wasCompleted ==> observer.events == (before + emitted) + [e];
      emitted := emitted + [e];
      r := next;
      rest := rest[1..];
    }
  }

  /** Subscribing `observer` to `josephusExecution$(numberOfSoldiers,
      stepSize)`: the observer receives exactly the events of `Josephus`, in
      order, and is then completed. */
  method JosephusExecution(observer: Observer, numberOfSoldiers: nat, stepSize: int)
    requires stepSize >= 1
    modifies observer
    ensures observer.completed
    ensures observer.events ==
      old(observer.events) + (if old(observer.completed) then [] else Josephus(numberOfSoldiers, stepSize))
  {
    ghost var before, wasCompleted := observer.events, observer.completed;
    ghost var all := Josephus(numberOfSoldiers, stepSize);
    ghost var emitted: seq<Event> := [];
    var state := State(Range(numberOfSoldiers), 0);
    while state.alive != []
      invariant RoundInvariant(state, stepSize)
      invariant emitted + RunFrom(state, stepSize) == all
      invariant observer.completed == wasCompleted
      invariant wasCompleted ==> observer.events == before
      invariant !wasCompleted ==> observer.events == before + emitted
      decreases |state.alive|, stepSize - 1 - state.counter
    {
      ghost var start, done := state, emitted;
      RunAdvance(start, stepSize);
      ghost var pass := Pass(start.alive, start, stepSize);
      state := WorkerPass(observer, state, stepSize);
      emitted := emitted + pass.events;
      assert emitted + RunFrom(state, stepSize) == done + (pass.events + RunFrom(state, stepSize));
      assert !wasCompleted ==> observer.events == (before + done) + pass.events;
    }
    assert RunFrom(state, stepSize) == [] && emitted == all;
    observer.Complete();
  }
}
