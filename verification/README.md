# Frame scheduler and namespace binder, in Dafny

This project models the fixed-rate frame scheduler of the game engine and the
JavaScript helper that publishes objects under dotted namespaces in the viewer.

**`GameEngine` and `GameEngineOptions`** (`CSharp/Engine`). `GameEngineOptions` is a class with two
guarded setters. A negative frame rate is refused. A render-ignore threshold outside
[0, 1] is refused, while null is accepted. `GameEngine` holds the options, the
cancellation token source `_cts` and the `disposedValue` flag:

- `Start` creates a token source and launches one loop unless `_cts` is already set.
- `Stop` only requests cancellation.
- The loop runs until cancellation. Each iteration:
  - wraps `frameId` at 32 bits;
  - calls `OnUpdating` with a tick carrying that id and the frame's expiration;
  - calls `OnRendering` with the same tick when the update stayed within the frame
    budget and within `threshold ?? 1` of it;
  - sleeps until the next multiple of the budget measured from the loop's start.

In the model the loop's thread becomes a script. The script gives the start reading,
the clock readings of each iteration and where the caller's `Stop` lands. The two
hooks are recorded in call order in the engine's `trace`. The pure specification
`RunLoop` says what a run dispatches, which delays it requests and how it ends:

- completed through the `while` test, which clears `_cts`;
- cancelled inside `Task.Delay`, which leaves `_cts` set;
- faulted by a division by zero, which happens for a frame rate of 0 and, after one
  iteration, for rates above 1000 (a budget of 0 ms).

`Engine.GameEngine.Loop` is proved to do exactly what `RunLoop` says. Lemmas about
`RunLoop` and its parts state the frame numbering, the render rule, the
drift-corrected cadence and the start/stop protocol.

**`BindToNamespace` and `DataTypes.Is`** (`CSharp/GameViewer/wwwroot/js/app.js`).
JavaScript values are modelled as a datatype. Objects and functions carry their own
string-keyed properties, and the page's `window` is the root of that tree. The
binder is modelled twice:

- `Namespaces.Window.BindToNamespace` is the source's imperative walk over the split
  namespace.
- `Namespaces.BindAt` is a structural definition of the same binding.

The method is proved equal to the structural definition. The lemmas about `BindAt`
state the following:

- where the value ends up;
- which keys and subtrees stay unchanged;
- when each error is thrown;
- that a throw leaves the tree as it was, in this model where objects have only
  their own properties (see `Namespaces.BindFailureChangesNothing` under "## Left out").

Where the intended design and the code differ, the model follows the code:

- A frame rate of 0 passes the setter's guard (`value < 0`, despite its message
  "must be greater than zero"), and the loop then faults at its first line.
- The threshold's default is null, read as 1 by the render test. It is not a stored
  1.0.
- The truncating `1000 / FrameRate` makes the budget shorter than the ideal one, so
  an uncorrected loop would run fast, not slow. The drift correction keeps
  wake-ups on the truncated grid, so the loop runs at `1000 / budget` frames per
  second. At 30 fps that is 31 frames starting in the first second.
- When a stop lands during the delay, `Task.Delay` throws and the clean-up is
  skipped. `_cts` then stays set, and every later `Start` is a no-op.
- A frame rate above 1000 gives a 0 ms budget. The loop then faults after its first
  update instead of running.

## Model

| member | source | states |
|---|---|---|
| FrameEvents.Wrap | CSharp/Engine/GameEngine.cs:43-59 | the result is the 32-bit value congruent to the input modulo 2^32, and any 32-bit input is kept as is |
| FrameEvents.UncheckedIncrement | CSharp/Engine/GameEngine.cs:43-59 | `frameId++` in `unchecked` is the 32-bit truncation of `frameId + 1` |
| FrameEvents.NextFrameId | CSharp/Engine/GameEngine.cs:39-59 | starting from 0, the n-th increment yields Wrap(n), and the frame after the maximum id carries the minimum |
| FrameEvents.FrameIdsDistinct | CSharp/Engine/GameEngine.cs:43-59 | frame ids fewer than 2^32 frames apart are distinct |
| FrameTiming.MillisecondsPerFrame | CSharp/Engine/GameEngine.cs:35 | the budget is the largest whole number of ms such that `FrameRate` frames fit in 1000 ms |
| FrameTiming.BudgetPositiveIff | CSharp/Engine/GameEngine.cs:35 | the budget is at least 1 ms exactly when the frame rate is at most 1000 |
| FrameTiming.RenderDue | CSharp/Engine/GameEngine.cs:78-81 | definition: a frame renders when its update took at most the budget and at most `threshold ?? 1` times the budget; its lemmas follow |
| FrameTiming.RenderDueWithoutThreshold | CSharp/Engine/GameEngine.cs:78-81 | with a null threshold a frame renders iff its update took at most the budget |
| FrameTiming.RenderDueWithThreshold | CSharp/Engine/GameEngine.cs:78-81 | with a threshold t in [0, 1] a frame renders iff its update took at most t times the budget |
| FrameTiming.ZeroThresholdSkipsTimedUpdates | CSharp/Engine/GameEngine.cs:78-81 | with threshold 0 only an update that took no time renders |
| FrameTiming.RenderDueMonotone | CSharp/Engine/GameEngine.cs:78-81 | a faster update or a larger threshold never turns a render into a skip |
| FrameTiming.CsRemainder | CSharp/Engine/GameEngine.cs:100 | C# `%` is the remainder of division truncated toward zero: it is smaller than the divisor in magnitude and has the sign of the dividend |
| FrameTiming.CsQuotient | CSharp/Engine/GameEngine.cs:100 | C# integer division truncates toward zero: for a non-negative dividend the quotient times the divisor is at most the dividend and less than one divisor below it, and symmetrically for a negative one; the quotient has the dividend's sign or is 0 |
| FrameTiming.SyncDelay | CSharp/Engine/GameEngine.cs:99-103 | the delay is positive and below twice the budget, and the wake-up falls on the budget grid measured from the loop's start; when the clock has not gone back past the start it is the first grid point after the update, at most one budget away |
| FrameTiming.IdealScheduleKeepsCadence | CSharp/Engine/GameEngine.cs:99-103 | when every update takes less than its budget, the i-th frame starts exactly i budgets after the loop's start, whatever each update took |
| FrameTiming.CadenceStep | CSharp/Engine/GameEngine.cs:99-103 | a frame that starts on the grid and whose update takes less than its budget is followed by a frame that starts on the next grid point |
| FrameTiming.ThirtyFramesPerSecond | CSharp/Engine.Tests/GameEngineTests.cs:72-77 | at 30 fps the budget is 33 ms, and an ideal run starts exactly frames 0 to 30 (31 updates) within its first second |
| EngineOptions.GameEngineOptions.FrameRate | CSharp/Engine/GameEngineOptions.cs:23-24 | the getter reads the stored rate; `SetFrameRate` states what it returns after each assignment |
| EngineOptions.GameEngineOptions.FrameRenderIgnoreThreshold | CSharp/Engine/GameEngineOptions.cs:47-48 | the getter reads the stored threshold; `SetFrameRenderIgnoreThreshold` states what it returns after each assignment |
| EngineOptions.GameEngineOptions.constructor | CSharp/Engine/GameEngineOptions.cs:12-13 | a new options object has frame rate 0 and a null threshold |
| EngineOptions.GameEngineOptions.SetFrameRate | CSharp/Engine/GameEngineOptions.cs:21-32 | a negative value throws InvalidOperationException and leaves the rate as it was; any other value is stored and read back by the getter; the threshold is unchanged |
| EngineOptions.GameEngineOptions.SetFrameRenderIgnoreThreshold | CSharp/Engine/GameEngineOptions.cs:45-59 | a value below 0 or above 1 throws and leaves the threshold as it was; null or a value in [0, 1] is stored and read back; the rate is unchanged; every stored threshold is null or in [0, 1] |
| Engine.AfterStart | CSharp/Engine/GameEngine.cs:133-146 | definition: `Start` leaves a state with a token source unchanged, and otherwise stores a fresh, uncancelled token source and launches one loop |
| Engine.AfterStop | CSharp/Engine/GameEngine.cs:151-158 | definition: `Stop` leaves a state without a token source unchanged, and otherwise only marks the token source cancelled |
| Engine.AfterLoop | CSharp/Engine/GameEngine.cs:105-108 | definition: only a loop that leaves through its `while` test clears `_cts`; a cancelled or faulted loop leaves it |
| Engine.FrameDispatches | CSharp/Engine/GameEngine.cs:58-97 | definition: one iteration calls `OnUpdating` with its tick, then `OnRendering` with the same tick when `RenderDue` holds; the tick is one immutable `(FrameId, Expiration)` value (UpdatingEventArgs.cs:17-43, RenderingEventArgs.cs:20-27) passed to both hooks |
| Engine.RunFrames | CSharp/Engine/GameEngine.cs:39-108 | definition of the `while` loop with a given budget: no frames means a completed exit with nothing dispatched; a 0 ms budget dispatches the first iteration's hooks and faults; otherwise every listed iteration is dispatched and delayed, and the exit is cancelled or completed by where the stop lands |
| Engine.RunLoop | CSharp/Engine/GameEngine.cs:32-109 | definition of a whole run: a frame rate of 0 faults before the loop with nothing dispatched; otherwise the run is `RunFrames` with the budget `1000 / FrameRate` |
| Engine.OneLoopPerTokenSource | CSharp/Engine/GameEngine.cs:133-158 | between clean loop exits, any sequence of Start, Stop and faulted or cancelled loop exits launches at most one loop; none is launched while `_cts` is set; once a stop is requested nothing changes |
| Engine.UpdatesAreNumberedFrames | CSharp/Engine/GameEngine.cs:39-69 | the i-th `OnUpdating` call (from 0) carries frame id Wrap(i + 1) and the expiration `then + budget` of its own iteration |
| Engine.EveryRenderFollowsItsUpdate | CSharp/Engine/GameEngine.cs:65-89 | every `OnRendering` call comes right after the `OnUpdating` call with the same tick |
| Engine.RendersAreDueFrames | CSharp/Engine/GameEngine.cs:78-89 | the number of renders equals the number of iterations whose render is due, and is at most the number of iterations |
| Engine.NullThresholdRendersTimelyFrames | CSharp/Engine/GameEngine.cs:78-89 | in any run with a null threshold, the number of renders equals the number of iterations whose update took at most the per-frame budget |
| Engine.DueWithoutThreshold | CSharp/Engine/GameEngine.cs:78-89 | with a null threshold, an iteration's render is due exactly when its update fits the budget, counted over any run |
| Engine.ZeroThresholdRendersInstantFrames | CSharp/Engine/GameEngine.cs:78-89 | in any run with threshold 0, the number of renders equals the number of iterations whose update took no time |
| Engine.DueWithZeroThreshold | CSharp/Engine/GameEngine.cs:78-89 | with threshold 0, an iteration's render is due exactly when its update took no time, counted over any run |
| Engine.CountWithinBounds | CSharp/Engine/GameEngine.cs:78-89 | the count of iterations within a limit is the whole run exactly when every update fits, and zero exactly when every update exceeds it; so with a null threshold all iterations render iff all fit, and with threshold 0 none renders iff every update took time |
| Engine.LoopFaultsIff | CSharp/Engine/GameEngine.cs:32-103 | a run faults exactly when the frame rate is 0, or above 1000 and an iteration starts |
| Engine.RunRendersNeverExceedUpdates | CSharp/Engine/GameEngine.cs:32-109 | in every run, renders never outnumber updates, and each render follows the update of its tick |
| Engine.GameEngine.constructor | CSharp/Engine/GameEngine.cs:26-30 | a new engine keeps its options, is stopped, has launched no loop and dispatched nothing, and is not disposed |
| Engine.GameEngine.Create | CSharp/Engine/GameEngine.cs:26-30 | null options throw ArgumentNullException; other options give a fresh, stopped engine holding them |
| Engine.GameEngine.Start | CSharp/Engine/GameEngine.cs:133-146 | with `_cts` set nothing happens; otherwise a fresh, uncancelled token source is stored and one loop is launched |
| Engine.GameEngine.Stop | CSharp/Engine/GameEngine.cs:151-158 | with `_cts` null nothing happens; otherwise cancellation is requested and the token source stays |
| Engine.GameEngine.Loop | CSharp/Engine/GameEngine.cs:32-109 | the hooks appended to the trace, the delays requested and the exit are those of `RunLoop`; a fault leaves `_cts` as it was; otherwise the state is that after `Stop`, with `_cts` cleared only on a completed exit |
| Engine.GameEngine.Frames | CSharp/Engine/GameEngine.cs:39-108 | the `while` loop with a given budget dispatches and delays as `RunFrames` says; `_cts` is cleared on a completed exit, is cancelled on a cancelled exit and is kept on a fault |
| Engine.GameEngine.Iterate | CSharp/Engine/GameEngine.cs:43-103 | one iteration increments the frame id with wrap-around, appends `OnUpdating` and the render when it is due, and requests the drift-corrected delay, or faults on a 0 ms budget |
| Engine.GameEngine.Dispose | CSharp/Engine/GameEngine.cs:174-204 | the engine is marked disposed and nothing else changes; a running loop is not stopped |
| JsValues.TypeOf | CSharp/GameViewer/wwwroot/js/app.js:169-171 | definition of `typeof`: null answers "object", and functions answer "function" apart from other objects |
| JsValues.Is | CSharp/GameViewer/wwwroot/js/app.js:169-171 | definition of `DataTypes.Is`: the two values have the same `typeof`; `IsAgainstSamples` states what it recognises |
| JsValues.IsAgainstSamples | CSharp/GameViewer/wwwroot/js/app.js:12-21 | the `typeof` comparisons with `""`, `false` and `undefined` recognise exactly strings, booleans and undefined; comparing with an object also admits null |
| Namespaces.Split | CSharp/GameViewer/wwwroot/js/app.js:23-25 | splitting on "." gives at least one piece, and no piece contains a dot |
| Namespaces.JoinSplit | CSharp/GameViewer/wwwroot/js/app.js:23-25 | joining the pieces with dots gives back the namespace |
| Namespaces.SplitJoin | CSharp/GameViewer/wwwroot/js/app.js:23-25 | dot-free segments joined with dots split back into the same segments |
| Namespaces.BindAt | CSharp/GameViewer/wwwroot/js/app.js:27-56 | definition of the binding: a node that is not an object throws a TypeError; each segment whose value is undefined becomes a fresh empty object and other segments are entered; at the end a defined leaf without `overwrite` is refused and otherwise `objName` is defined; the lemmas below state its properties |
| Namespaces.BindToNamespaceSpec | CSharp/GameViewer/wwwroot/js/app.js:6-57 | definition of the whole call: an absent `overwrite` means false, the three argument checks throw a ReferenceError first, and otherwise the split namespace is bound from `window` by `BindAt` |
| Namespaces.BindStoresValue | CSharp/GameViewer/wwwroot/js/app.js:27-56 | after a successful binding, following the namespace and then `objName` from the root reaches `obj` |
| Namespaces.BindKeepsOtherKeys | CSharp/GameViewer/wwwroot/js/app.js:47-56 | after a successful binding every other key of the final node is as it was; a node created on the way had none |
| Namespaces.BindFrame | CSharp/GameViewer/wwwroot/js/app.js:27-56 | whatever the outcome, every path that leaves the namespace path before its end reads the same value as before |
| Namespaces.FreshPathSucceeds | CSharp/GameViewer/wwwroot/js/app.js:30-38 | below a node the walk has just created, binding always succeeds |
| Namespaces.BindFailureChangesNothing | CSharp/GameViewer/wwwroot/js/app.js:27-45 | a binding that throws leaves the tree unchanged |
| Namespaces.TypeErrorIff | CSharp/GameViewer/wwwroot/js/app.js:27-56 | in the model, where primitives have no properties, a TypeError is thrown exactly when some prefix of the namespace leads to a value that exists but is not an object (null or a primitive) |
| Namespaces.OverwriteRefusedIff | CSharp/GameViewer/wwwroot/js/app.js:41-45 | the overwrite error is thrown exactly when `overwrite` is false, every node of the namespace already exists as an object, and the leaf holds a value other than undefined |
| Namespaces.BindMakesPath | CSharp/GameViewer/wwwroot/js/app.js:27-39 | after a successful binding every node of the namespace exists as an object |
| Namespaces.RebindRefused | CSharp/GameViewer/wwwroot/js/app.js:41-45 | binding a defined value and then binding again without `overwrite` is refused, and the second call leaves the tree as the first left it |
| Namespaces.ArgumentChecks | CSharp/GameViewer/wwwroot/js/app.js:12-21 | a ReferenceError is thrown exactly when `namespace` or `objName` is not a string or `overwrite` is neither boolean nor undefined, and then the tree is untouched |
| Namespaces.Window.BindToNamespace | CSharp/GameViewer/wwwroot/js/app.js:6-57 | the imperative walk leaves `window` and returns the outcome exactly as `BindToNamespaceSpec` says; argument errors are exactly the failed type checks; every throw leaves `window` unchanged |

## Left out

- Threading: `Task.Run`, the real sleep in `Task.Delay` and the concurrent caller are not modelled. A loop run is a script in which the caller's `Stop` lands after the last listed iteration, either during its delay or before the next `while` test. Other interleavings, for example a `Stop` that races a `Start`, are not modelled.
- `Task.Run(Loop, _cts.Token)` skips `Loop` entirely when the token is cancelled before the task starts. `_cts` then stays set. This is not modelled.
- Clock readings are whole milliseconds supplied by the script. `DateTime.Now`, `TimeSpan.TotalMilliseconds` (a double) and IEEE rounding are left out, as is the `(int)` cast at GameEngine.cs:100, which overflows after about 24.8 days of running.
- FrameTiming.RenderDue: the threshold is a real number, not a `float`. A NaN threshold, which the setter's comparisons let through, is not modelled.
- Engine.GameEngine.Loop: `FrameRate` is read once, at the start of the run, as in GameEngine.cs:35, but the source re-reads `FrameRenderIgnoreThreshold` in every iteration (GameEngine.cs:80) while the model reads it once per run. A change to the threshold during a run, by another thread or by an `OnUpdating` hook on the loop's own thread, is therefore not modelled.
- Exceptions thrown by the `OnUpdating` and `OnRendering` hooks are not modelled. The hooks are recorded, not run.
- The `#if DEBUG` `RenderDebugInformation` hook is left out.
- Namespaces.BindFailureChangesNothing: holds only for own properties. In a browser, a leaf name inherited from `Object.prototype` (such as `toString`) below a freshly created node makes the source refuse after creating that node. The created nodes then remain, for example `BindToNamespace("a", "toString", x)` leaves `window.a = {}`.
- Namespaces.FreshPathSucceeds: a fresh `{}` has no own properties here. In a browser, a leaf named like an `Object.prototype` member is refused below it, and the nodes created before the refusal remain.
- Namespaces.OverwriteRefusedIff: only own properties decide the refusal. A leaf inherited from `Object.prototype` also refuses in the source, including below nodes the same call created, which then remain. So does a defined property of a primitive final node: with `window.a = "abc"`, `BindToNamespace("a", "length", 1)` throws the overwrite error in the source, because `"abc".length` is 3, while the model throws a TypeError.
- Namespaces.TypeErrorIff: the iff holds for the model, in which primitives have no properties. In the source, a primitive node is entered like any other value and its properties are read through its wrapper object. With `window.a = "abc"`, `BindToNamespace("a", "length", 1)` and, with `window.a = 5`, `BindToNamespace("a", "toString", f)` both throw the overwrite error. `BindToNamespace("a.constructor", "x", v)` reads `"abc".constructor` (the `String` function) and defines `x` on it successfully. The model throws a TypeError in all three cases. In the source, a TypeError comes from reading a property of null, or from `Object.defineProperty` on a primitive. That happens for a segment that reads as undefined, and for the leaf unless the overwrite error comes first.
- Namespaces.Window.BindToNamespace: the clause that every throw leaves `window` unchanged holds only for own properties, for the same reason as `Namespaces.BindFailureChangesNothing`.
- JsValues.TypeOf: `JsValue` has no symbol or bigint values, so `typeof` gives six of its eight answers, and `DataTypes.Is` on symbols or bigints (app.js:169-171) cannot be stated. The binder never uses such values as its samples.
- JsValues.Get: only own properties are modelled. The prototype chain, inherited properties, and the properties of primitive values (a string's `length` and indices) read as undefined.
- JsValues.Define: `Object.defineProperty` always succeeds on an object or function. Non-configurable properties, frozen objects and proxies are not modelled.
- Object identity and aliasing between JavaScript objects are not modelled. The tree is a value.
- The viewer engines, the JavaScript interop wrappers, the other helpers in app.js, and the host bootstrap are not part of this model.
