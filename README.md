# Josephus execution engine

This project models the counting-out engine behind `josephusExecution$` in
`src/index.ts`. It proves properties of that model. `josephusExecution$(n, stepSize)` is an
observable of `[soldierId, status]` pairs. On subscription it starts from the roster `[0..n)` and
counter 0. It then runs the worker `josephusWorker` again and again:

- The worker folds (`_.reduce`) over a snapshot of the current roster.
- For each id it pushes one event to the observer.
- When the counter equals `stepSize - 1`, it pushes `DEAD`, removes the id from the working roster
  (by `indexOf` and two slices) and resets the counter to 0.
- Otherwise it pushes `ALIVE` and increments the counter.
- Once the roster is empty, the worker completes the observer.

The model has three modules:

- `JsArray` models `Array.prototype.indexOf` and `Array.prototype.slice` with their ECMAScript
  semantics. `indexOf` answers -1 for a missing element. `slice` counts negative bounds from the
  end and clamps every bound. The removal is therefore modelled exactly, including what it would
  do with -1.
- `Engine` is the pure part. It defines `Status`, `Event` and `State` (the source's `class State`,
  whose instances are never mutated). It defines the reducer `Step`, the fold `Pass` and the whole
  run `RunFrom` / `Josephus`. The lemmas about them are here too.
- `Execution` is the imperative part:
  - `Observer` is the subscriber, an object whose event log and completion flag change. Like an Rx
    subscriber, it ignores values pushed after completion.
  - `WorkerPass` is one call of the worker. It loops over the snapshot and pushes each event as the
    reducer produces it.
  - `JosephusExecution` is the subscription. It loops over passes until the roster is empty, then
    completes the observer.
  - Both methods are proved to deliver exactly the events of `Pass` and `Josephus`.

The run terminates because `|alive| * stepSize + (stepSize - 1 - counter)` falls by exactly one per
event. It follows that a run over `n` soldiers emits exactly `n * stepSize` events.

## Model

| member | source | states |
|---|---|---|
| JsArray.IndexOf | src/index.ts:163 | `indexOf` answers -1 exactly when the id is absent; otherwise it answers the position of the first occurrence |
| JsArray.Slice | src/index.ts:164-166 | `slice(start, end)` with in-range bounds is the subsequence `xs[start..end]`; a negative bound counts back from the end, bounds beyond either end are clamped, and a start not before the end gives nothing; never longer than `xs` |
| JsArray.SliceFrom | src/index.ts:165 | `slice(start)` from an in-range start is the suffix from `start`; a negative start counts back from the end |
| Engine.Range | src/index.ts:182 | `_.range(0, n)` has length `n` and holds `i` at position `i` |
| Engine.RemoveAt | src/index.ts:164-166 | the spread of the two slices around a found index `i` is the roster without position `i`, order kept; around -1 it is the roster less its last id, followed by the whole roster |
| Engine.Pass | src/index.ts:160-172 | a pass emits one event per id of the snapshot |
| Engine.PassFollowsSnapshot | src/index.ts:160-172 | the events of a pass name the snapshot's ids, one each, in snapshot order |
| Engine.StepSpec | src/index.ts:161-171 | the examined id sits at its snapshot position in the working roster and `indexOf` finds it there; the step emits DEAD exactly when `counter == stepSize - 1`, and then the roster loses just that id (order kept) and the counter is 0; ALIVE keeps the roster and adds 1 to the counter |
| Engine.StepKeepsRoster | src/index.ts:161-171 | after a step, the unexamined ids are still the end of the working roster, and the roster still has no duplicates |
| Engine.StepMembers | src/index.ts:161-171 | after a step, the roster holds the same ids, less the examined one if it was executed |
| Engine.StepKeepsIncreasing | src/index.ts:164-166 | removal keeps an increasing roster increasing |
| Engine.RemoveAtKeeps | src/index.ts:164-166 | removing a position keeps the roster free of duplicates (and increasing); it removes exactly the id at that position |
| Engine.StepMeasure | src/index.ts:161-171 | each step keeps the counter in [0, stepSize - 1] and lowers the termination measure by exactly one |
| Engine.PassFindsEveryId | src/index.ts:163-166 | at every executing step of a pass, `indexOf` finds the id, so the slice-based removal never works on -1 |
| Engine.PassInvariant | src/index.ts:160-172 | a pass keeps the counter in range and the roster duplicate-free (and increasing); it adds no id, and it lowers the measure by the snapshot length |
| Engine.PassDeaths | src/index.ts:161-168 | within a pass, each roster id either survives or has exactly one DEAD event; the DEAD count is the number of ids removed; a pass that empties the roster leaves the counter at 0 |
| Engine.PassStepOneState | src/index.ts:161-168 | with step size 1, a pass executes every soldier of the snapshot and leaves the counter at 0 |
| Engine.PassStepOneEvents | src/index.ts:161-168 | with step size 1, every event of a pass is DEAD, in snapshot order |
| Engine.StepAdvance | src/index.ts:160-172 | one step of the fold keeps the loop's invariants, and the pass is that step's event followed by the rest of the fold |
| Engine.MeasureNonNegative | src/index.ts:154-174 | the termination measure is never negative |
| Engine.DeathsOfAppend | src/index.ts:162 | DEAD events for an id add up over concatenated stretches of events |
| Engine.CountStatusAppend | src/index.ts:162-170 | status counts add up over concatenated stretches of events |
| Engine.CountStatusSplit | src/index.ts:162-170 | every event is either ALIVE or DEAD |
| Engine.RunLength | src/index.ts:154-174 | a run from a non-empty roster emits `|alive| * stepSize - counter` events |
| Engine.RunDeaths | src/index.ts:154-174 | over a run, every id of the starting roster gets exactly one DEAD event and no other id gets one; every event names a starting id; the DEAD count equals the roster size |
| Engine.DeathCounted | src/index.ts:162 | an id with a DEAD event in a stretch has a DEAD count of at least one there |
| Engine.NothingAfterDeathAppend | src/index.ts:160-174 | a pass's events followed by later events keep "no event after an execution" |
| Engine.RunNothingAfterDeath | src/index.ts:154-174 | no event of a run names a soldier after that soldier's DEAD event |
| Engine.JosephusTheorem | src/index.ts:150-188 | `josephusExecution$(n, stepSize)` emits `n * stepSize` events: `n` DEAD and `n * (stepSize - 1)` ALIVE. Each id in [0, n) dies exactly once, no other id dies, every id lies in [0, n), there is no survivor, and nothing follows a death |
| Engine.JosephusStepOne | src/index.ts:161-182 | with step size 1, the run is exactly `(0, DEAD), …, (n-1, DEAD)` |
| Engine.ExampleNoSoldiers | src/index.ts:155-182 | with no soldiers the run emits nothing |
| Engine.LonePass | src/index.ts:160-172 | a pass over a lone soldier kills them exactly when the counter is `stepSize - 1` |
| Engine.ExampleLoneSoldier | src/index.ts:160-182 | one soldier with step size 3 gives `(0, ALIVE), (0, ALIVE), (0, DEAD)` |
| Engine.ExampleThreeSoldiers | src/index.ts:160-182 | three soldiers with step size 2 give `0A 1D 2A 0D 2A 2D` |
| Engine.ThreeSoldiers | src/index.ts:160-172 | the same trace for any three distinct ids |
| Engine.LastPassesOfThree | src/index.ts:154-174 | the last two passes of that trace |
| Engine.FirstPassOfThree | src/index.ts:160-172 | the first pass of that trace and the state it hands on |
| Engine.SecondPassOfThree | src/index.ts:160-172 | the second pass of that trace and the state it hands on |
| Engine.RunUnfold | src/index.ts:154-174 | a run from a non-empty roster is one pass followed by the run from the state that pass returns |
| Engine.RunAdvance | src/index.ts:154-174 | one pass keeps the invariant and shrinks the roster or else grows the counter; the run is that pass followed by the rest |
| Engine.InRangeOrderBounds | src/index.ts:182 | every id of an increasing roster bounded by [0, n) at its ends lies in [0, n) |
| Engine.RangeInRangeOrder | src/index.ts:182 | the starting roster `[0..n)` is increasing and within [0, n) |
| Engine.PassKeepsRangeOrder | src/index.ts:160-172 | a pass keeps the roster an increasing sequence of ids in [0, n) |
| Engine.JosephusRosters | src/index.ts:154-182 | at the start of every pass, the counter is in [0, stepSize - 1] and the roster is a duplicate-free increasing sequence of ids in [0, n), i.e. a subsequence of `[0..n)`; the state the last pass leaves has an empty roster |
| Engine.RostersFrom | src/index.ts:154-174 | the same from any state whose roster has that shape |
| Engine.PassStarts | src/index.ts:154-174 | the states between passes begin with the starting state |
| Engine.RunIsPasses | src/index.ts:154-174 | a run is exactly the passes started from every state of `PassStarts` but the last, one after another |
| Execution.Observer.constructor | src/index.ts:153 | a fresh subscriber has received nothing and is not completed |
| Execution.Observer.Next | src/index.ts:162-170 | `observer.next` appends the value unless the subscriber has completed |
| Execution.Observer.Complete | src/index.ts:156 | `observer.complete` marks completion and leaves the received values alone |
| Execution.WorkerPass | src/index.ts:154-174 | one worker call pushes exactly the events of `Pass`, in order, and hands on `Pass`'s state, whose counter is in [0, stepSize - 1] and whose roster has no duplicates; every executing step's `indexOf` finds its id |
| Execution.JosephusExecution | src/index.ts:150-188 | subscribing pushes exactly the events of `Josephus(n, stepSize)`, in order, then completes the observer |

## Left out

- `setTimeout` deferral (src/index.ts:174, 182) is not modelled as scheduling. The source passes the worker's *result* to `setTimeout`. Although `setTimeout` suggests one deferred pass per timer tick, the worker is called before `setTimeout` receives anything, so the whole run happens synchronously on subscription, which is what the model does.
- The mutable `timeoutId`, `clearTimeout` and the teardown returned to the subscriber (src/index.ts:151, 184-186) are cancellation plumbing, and no state of the engine depends on them.
- RxJS pacing (`zip` with `interval`), input streams, string-to-number coercion, DOM rendering and `calculateSoldierPosition` are outside the engine. They are UI, timing and floating point.
- Engine.Josephus: `stepSize >= 1` is a precondition. With `stepSize <= 0` and no soldiers the source completes at once with no events (src/index.ts:155-157); with soldiers `counter === stepSize - 1` never holds, no pass removes anyone, and each pass nests one more synchronous worker call (src/index.ts:174) until the JavaScript stack overflows. That behaviour is not modelled.
- Engine.Josephus: `numberOfSoldiers` is a `nat`. For a negative count, `_.range(0, n)` counts down (`_.range(0, -3)` is `[0, -1, -2]`) and the worker runs normally on that roster; the model does not cover that count-down roster, nor a non-integer count.
- Engine.RunFrom: the worker's recursion once per pass is a recursive function (and a loop in `Execution.JosephusExecution`), and JavaScript's stack depth is not modelled. A run with many passes, such as one soldier with a step size in the tens of thousands, overflows the stack in the source, while the model completes it.
- `SoldierId` is an unbounded integer. JavaScript numbers are doubles, but every id here is below `n`.
- Execution.JosephusExecution: the driver's loop invariant states only the counter range and absence of duplicates. The roster's subsequence-of-`[0..n)` shape at every pass is stated and proved in `Engine.JosephusRosters` for every state of `Engine.PassStarts`, which `Engine.RunIsPasses` ties to the run's passes, not as a loop invariant.
