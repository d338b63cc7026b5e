/**
 * `GameEngine` (Engine/GameEngine.cs): a start/stop state machine keyed on
 * the cancellation token source `_cts`, and the fixed-rate frame loop that
 * numbers frames, dispatches `OnUpdating` and (budget permitting)
 * `OnRendering`, and sleeps until the next point of the grid anchored at
 * the loop's start.
 *
 * The loop runs on its own thread in the source.  Here a run of the loop is
 * driven by a script: the `sync` reading, the clock readings of each
 * iteration, and where the caller's concurrent `Stop` lands.  The two hooks
 * are recorded, in call order, in `trace`.
 */
module Engine {
  import opened Wrappers
  import opened FrameEvents
  import opened FrameTiming
  import opened EngineOptions

  /** What the constructor throws. */
  datatype EngineError = ArgumentNullException

  /** The part of a `CancellationTokenSource` the engine looks at. */
  datatype TokenSource = TokenSource(cancellationRequested: bool)

  /** The engine's control state: `_cts`, and how many loops `Start` has
      launched so far. */
  datatype Lifecycle = Lifecycle(cts: Option<TokenSource>, launched: nat)

  /** How a run of `Loop` ends: the `while` test saw the cancellation and
      the clean-up ran; `Task.Delay` threw `TaskCanceledException`; or a
      division by zero threw. */
  datatype LoopExit = Completed | Cancelled | Faulted

  /** One event that changes the control state. */
  datatype Control = StartCall | StopCall | LoopEnded(exit: LoopExit)

  /** `Start`: nothing when `_cts` is set; otherwise a fresh token source and
      one more loop. */
  function AfterStart(s: Lifecycle): Lifecycle {
    if s.cts.Some? then s else Lifecycle(Some(TokenSource(false)), s.launched + 1)
  }

  /** `Stop`: nothing when `_cts` is null; otherwise only a cancellation
      request on the token source, which stays in place. */
  function AfterStop(s: Lifecycle): Lifecycle {
    if s.cts.None? then s else s.(cts := Some(TokenSource(true)))
  }

  /** Only a loop that leaves through its `while` test clears `_cts`. */
  function AfterLoop(s: Lifecycle, exit: LoopExit): Lifecycle {
    if exit == Completed then s.(cts := None) else s
  }

  function Apply(s: Lifecycle, c: Control): Lifecycle {
    match c
    case StartCall => AfterStart(s)
    case StopCall => AfterStop(s)
    case LoopEnded(exit) => AfterLoop(s, exit)
  }

  function Replay(s: Lifecycle, ops: seq<Control>): Lifecycle
    decreases |ops|
  {
    if ops == [] then s else Replay(Apply(s, ops[0]), ops[1..])
  }

  /** Between two clean loop exits, any interleaving of `Start` and `Stop`
      launches at most one loop, and none while a token source exists; once
      a stop has been requested the engine stays stopped and `Start` stays
      a no-op until a loop clears `_cts`. */
  lemma {:induction false} OneLoopPerTokenSource(s: Lifecycle, ops: seq<Control>)
    requires forall i :: 0 <= i < |ops| ==> ops[i] != LoopEnded(Completed)
    ensures Replay(s, ops).launched <= s.launched + 1
    ensures s.cts.Some? ==> Replay(s, ops).cts.Some? && Replay(s, ops).launched == s.launched
    ensures s.cts == Some(TokenSource(true)) ==> Replay(s, ops) == s
    decreases |ops|
  {
    if ops != [] {
      assert ops[0] != LoopEnded(Completed);
      OneLoopPerTokenSource(Apply(s, ops[0]), ops[1..]);
    }
  }

  /** The hooks called by one iteration: `OnUpdating`, then `OnRendering`
      with the same tick when the render is due. */
  function FrameDispatches(id: Int32, mpf: int, threshold: Option<real>, clock: FrameClock): seq<Dispatch> {
    var tick := FrameTick(id, clock.start + mpf);
    [Updating(tick)] + if RenderDue(clock.updateNow - clock.start, mpf, threshold) then [Rendering(tick)] else []
  }

  /** The hooks called by the iterations whose clock readings are `frames`,
      the i-th (from 0) numbered Wrap(i + 1). */
  function Dispatches(mpf: int, threshold: Option<real>, frames: seq<FrameClock>): seq<Dispatch>
    decreases |frames|
  {
    if frames == [] then []
    else
      Dispatches(mpf, threshold, frames[..|frames| - 1])
      + FrameDispatches(Wrap(|frames|), mpf, threshold, frames[|frames| - 1])
  }

  /** The `Task.Delay` arguments of those iterations. */
  function Delays(sync: int, mpf: int, frames: seq<FrameClock>): seq<int>
    requires mpf > 0
  {
    seq(|frames|, i requires 0 <= i < |frames| => SyncDelay(frames[i].updateNow - sync, mpf))
  }

  /** What one run of the loop does. */
  datatype LoopRun = LoopRun(dispatches: seq<Dispatch>, delays: seq<int>, exit: LoopExit)

  /** A run of `Loop` with the given options, `sync` reading and iterations.
      A zero frame rate faults in the division `1000 / FrameRate`, before the
      loop. */
  function RunLoop(frameRate: int, threshold: Option<real>, sync: int, frames: seq<FrameClock>, stopDuringDelay: bool): LoopRun
    requires 0 <= frameRate
  {
    if frameRate == 0 then LoopRun([], [], Faulted)
    else RunFrames(MillisecondsPerFrame(frameRate), threshold, sync, frames, stopDuringDelay)
  }

  /** The `while` loop of `Loop` with budget `mpf`.  No frames means the
      cancellation is seen at the first test; otherwise the stop lands after
      the last listed update, during its delay or before the next test.  A
      zero budget (a frame rate above 1000) lets the first iteration run its
      hooks and then fault in `msOffset = ... % millisecondsPerFrame`. */
  function RunFrames(mpf: nat, threshold: Option<real>, sync: int, frames: seq<FrameClock>, stopDuringDelay: bool): LoopRun {
    if frames == [] then LoopRun([], [], Completed)
    else if mpf == 0 then LoopRun(FrameDispatches(Wrap(1), 0, threshold, frames[0]), [], Faulted)
    else LoopRun(Dispatches(mpf, threshold, frames), Delays(sync, mpf, frames),
                 if stopDuringDelay then Cancelled else Completed)
  }

  /** The ticks of the `OnUpdating` calls, in order. */
  function UpdatedTicks(d: seq<Dispatch>): seq<FrameTick>
    decreases |d|
  {
    if d == [] then []
    else UpdatedTicks(d[..|d| - 1]) + if d[|d| - 1].Updating? then [d[|d| - 1].tick] else []
  }

  /** The number of `OnRendering` calls. */
  function CountRenders(d: seq<Dispatch>): nat
    decreases |d|
  {
    if d == [] then 0
    else CountRenders(d[..|d| - 1]) + if d[|d| - 1].Rendering? then 1 else 0
  }

  /** The number of iterations whose render is due. */
  function CountDue(mpf: int, threshold: Option<real>, frames: seq<FrameClock>): nat
    decreases |frames|
  {
    if frames == [] then 0
    else
      var c := frames[|frames| - 1];
      CountDue(mpf, threshold, frames[..|frames| - 1]) + if RenderDue(c.updateNow - c.start, mpf, threshold) then 1 else 0
  }

  lemma {:induction false} UpdatedTicksAppend(a: seq<Dispatch>, b: seq<Dispatch>)
    ensures UpdatedTicks(a + b) == UpdatedTicks(a) + UpdatedTicks(b)
    decreases |b|
  {
    if b == [] {
      assert a + b == a;
    } else {
      var b' := b[..|b| - 1];
      assert (a + b)[..|a + b| - 1] == a + b';
      assert (a + b)[|a + b| - 1] == b[|b| - 1];
      UpdatedTicksAppend(a, b');
    }
  }

  lemma {:induction false} CountRendersAppend(a: seq<Dispatch>, b: seq<Dispatch>)
    ensures CountRenders(a + b) == CountRenders(a) + CountRenders(b)
    decreases |b|
  {
    if b == [] {
      assert a + b == a;
    } else {
      var b' := b[..|b| - 1];
      assert (a + b)[..|a + b| - 1] == a + b';
      assert (a + b)[|a + b| - 1] == b[|b| - 1];
      CountRendersAppend(a, b');
    }
  }

  /** The tick of the i-th iteration (from 0): frame id Wrap(i + 1) and
      expiration `start + mpf`. */
  function NumberedTicks(mpf: int, frames: seq<FrameClock>): seq<FrameTick> {
    seq(|frames|, i requires 0 <= i < |frames| => FrameTick(Wrap(i + 1), frames[i].start + mpf))
  }

  /** The i-th `OnUpdating` call (from 0) carries frame id Wrap(i + 1) — 1
      for the first — and expiration `start + mpf` of the i-th iteration. */
  lemma {:induction false} UpdatesAreNumberedFrames(mpf: int, threshold: Option<real>, frames: seq<FrameClock>)
    ensures UpdatedTicks(Dispatches(mpf, threshold, frames)) == NumberedTicks(mpf, frames)
    decreases |frames|
  {
    if frames != [] {
      var n := |frames| - 1;
      var init := frames[..n];
      UpdatesAreNumberedFrames(mpf, threshold, init);
      var block := FrameDispatches(Wrap(n + 1), mpf, threshold, frames[n]);
      UpdatedTicksAppend(Dispatches(mpf, threshold, init), block);
      var tick := FrameTick(Wrap(n + 1), frames[n].start + mpf);
      BlockTicks(block, tick);
      assert NumberedTicks(mpf, frames) == NumberedTicks(mpf, init) + [tick];
    }
  }

  lemma BlockTicks(block: seq<Dispatch>, tick: FrameTick)
    requires block == [Updating(tick)] || block == [Updating(tick), Rendering(tick)]
    ensures UpdatedTicks(block) == [tick]
  {
    assert block[..1] == [Updating(tick)];
    assert [Updating(tick)][..0] == [];
  }

  /** Every `OnRendering` call comes right after the `OnUpdating` call of the
      same tick. */
  ghost predicate RendersFollowUpdates(d: seq<Dispatch>) {
    forall k :: 0 <= k < |d| && d[k].Rendering? ==> 0 < k && d[k - 1] == Updating(d[k].tick)
  }

  lemma {:induction false} EveryRenderFollowsItsUpdate(mpf: int, threshold: Option<real>, frames: seq<FrameClock>)
    ensures RendersFollowUpdates(Dispatches(mpf, threshold, frames))
    decreases |frames|
  {
    if frames != [] {
      var n := |frames| - 1;
      var prefix := Dispatches(mpf, threshold, frames[..n]);
      EveryRenderFollowsItsUpdate(mpf, threshold, frames[..n]);
      var block := FrameDispatches(Wrap(n + 1), mpf, threshold, frames[n]);
      var d := prefix + block;
      forall k | 0 <= k < |d| && d[k].Rendering?
        ensures 0 < k && d[k - 1] == Updating(d[k].tick)
      {
        if k < |prefix| {
          assert d[k] == prefix[k];
          assert 0 < k && prefix[k - 1] == Updating(prefix[k].tick);
          assert d[k - 1] == prefix[k - 1];
        } else {
          assert k == |prefix| + 1 && d[k - 1] == block[0];
        }
      }
    }
  }

  /** Each iteration renders exactly when its render is due, so the renders
      number the due iterations and never exceed the updates. */
  lemma {:induction false} RendersAreDueFrames(mpf: int, threshold: Option<real>, frames: seq<FrameClock>)
    ensures CountRenders(Dispatches(mpf, threshold, frames)) == CountDue(mpf, threshold, frames)
    ensures CountDue(mpf, threshold, frames) <= |frames|
    decreases |frames|
  {
    if frames != [] {
      var n := |frames| - 1;
      RendersAreDueFrames(mpf, threshold, frames[..n]);
      var block := FrameDispatches(Wrap(n + 1), mpf, threshold, frames[n]);
      CountRendersAppend(Dispatches(mpf, threshold, frames[..n]), block);
      assert CountRenders(block[..1]) == 0 by {
        assert block[..1][..0] == [];
      }
      if |block| == 2 {
        assert block[..|block| - 1] == block[..1];
      } else {
        assert block == block[..1];
      }
    }
  }

  /** The number of iterations whose update took at most `limit` ms. */
  function CountWithin(limit: int, frames: seq<FrameClock>): nat
    decreases |frames|
  {
    if frames == [] then 0
    else
      var c := frames[|frames| - 1];
      CountWithin(limit, frames[..|frames| - 1]) + if c.updateNow - c.start <= limit then 1 else 0
  }

  /** With no threshold, the iterations that render are exactly those whose
      update fits the budget, in any run: late updates skip their render and
      nothing else does. */
  lemma {:induction false} NullThresholdRendersTimelyFrames(mpf: int, frames: seq<FrameClock>)
    ensures CountRenders(Dispatches(mpf, None, frames)) == CountWithin(mpf, frames)
  {
    RendersAreDueFrames(mpf, None, frames);
    DueWithoutThreshold(mpf, frames);
  }

  lemma {:induction false} DueWithoutThreshold(mpf: int, frames: seq<FrameClock>)
    ensures CountDue(mpf, None, frames) == CountWithin(mpf, frames)
    decreases |frames|
  {
    if frames != [] {
      DueWithoutThreshold(mpf, frames[..|frames| - 1]);
    }
  }

  /** With threshold 0, the iterations that render are exactly those whose
      update took no time, in any run; so once every update takes time,
      nothing renders. */
  lemma {:induction false} ZeroThresholdRendersInstantFrames(mpf: int, frames: seq<FrameClock>)
    requires 0 <= mpf
    ensures CountRenders(Dispatches(mpf, Some(0.0), frames)) == CountWithin(0, frames)
  {
    RendersAreDueFrames(mpf, Some(0.0), frames);
    DueWithZeroThreshold(mpf, frames);
  }

  lemma {:induction false} DueWithZeroThreshold(mpf: int, frames: seq<FrameClock>)
    requires 0 <= mpf
    ensures CountDue(mpf, Some(0.0), frames) == CountWithin(0, frames)
    decreases |frames|
  {
    if frames != [] {
      DueWithZeroThreshold(mpf, frames[..|frames| - 1]);
    }
  }

  /** Counting the iterations within a limit: all of them exactly when every
      update fits, none exactly when every update exceeds it. */
  lemma {:induction false} CountWithinBounds(limit: int, frames: seq<FrameClock>)
    ensures CountWithin(limit, frames) == |frames|
            <==> forall i :: 0 <= i < |frames| ==> frames[i].updateNow - frames[i].start <= limit
    ensures CountWithin(limit, frames) == 0
            <==> forall i :: 0 <= i < |frames| ==> frames[i].updateNow - frames[i].start > limit
    decreases |frames|
  {
    if frames != [] {
      var n := |frames| - 1;
      var init := frames[..n];
      CountWithinBounds(limit, init);
      assert CountWithin(limit, init) <= |init| by {
        CountWithinAtMost(limit, init);
      }
      forall i | 0 <= i < n
        ensures frames[i] == init[i]
      {
      }
    }
  }

  lemma {:induction false} CountWithinAtMost(limit: int, frames: seq<FrameClock>)
    ensures CountWithin(limit, frames) <= |frames|
    decreases |frames|
  {
    if frames != [] {
      CountWithinAtMost(limit, frames[..|frames| - 1]);
    }
  }

  /** A run faults exactly when the frame rate is 0, or above 1000 and an
      iteration starts. */
  lemma LoopFaultsIff(frameRate: int, threshold: Option<real>, sync: int, frames: seq<FrameClock>, stopDuringDelay: bool)
    requires 0 <= frameRate
    ensures RunLoop(frameRate, threshold, sync, frames, stopDuringDelay).exit == Faulted
            <==> frameRate == 0 || (1000 < frameRate && frames != [])
  {
    if 0 < frameRate {
      BudgetPositiveIff(frameRate);
    }
  }

  /** In every run, renders never outnumber updates, and each render follows
      the update of its own tick. */
  lemma RunRendersNeverExceedUpdates(frameRate: int, threshold: Option<real>, sync: int, frames: seq<FrameClock>, stopDuringDelay: bool)
    requires 0 <= frameRate
    ensures var d := RunLoop(frameRate, threshold, sync, frames, stopDuringDelay).dispatches;
            CountRenders(d) <= |UpdatedTicks(d)| && RendersFollowUpdates(d)
  {
    if frameRate > 0 && frames != [] {
      var mpf := MillisecondsPerFrame(frameRate);
      if mpf == 0 {
        var one := frames[..1];
        assert one[..0] == [];
        assert Dispatches(0, threshold, one) == FrameDispatches(Wrap(1), 0, threshold, frames[0]);
        RendersAreDueFrames(0, threshold, one);
        UpdatesAreNumberedFrames(0, threshold, one);
        EveryRenderFollowsItsUpdate(0, threshold, one);
      } else {
        RendersAreDueFrames(mpf, threshold, frames);
        UpdatesAreNumberedFrames(mpf, threshold, frames);
        EveryRenderFollowsItsUpdate(mpf, threshold, frames);
      }
    }
  }

  /** One more iteration appends its own hooks, numbered by its position. */
  lemma DispatchesStep(mpf: int, threshold: Option<real>, frames: seq<FrameClock>, i: nat)
    requires i < |frames|
    ensures Dispatches(mpf, threshold, frames[..i + 1])
            == Dispatches(mpf, threshold, frames[..i]) + FrameDispatches(Wrap(i + 1), mpf, threshold, frames[i])
  {
    assert frames[..i + 1][..i] == frames[..i];
  }

  lemma DelaysStep(sync: int, mpf: int, frames: seq<FrameClock>, i: nat)
    requires mpf > 0 && i < |frames|
    ensures Delays(sync, mpf, frames[..i + 1]) == Delays(sync, mpf, frames[..i]) + [SyncDelay(frames[i].updateNow - sync, mpf)]
  {
  }

  class GameEngine {
    /** `_options` */
    const options: GameEngineOptions
    /** `_cts` */
    var cts: Option<TokenSource>
    /** Loops launched by `Start` (each `Task.Run(Loop, ...)`). */
    var launched: nat
    /** The `OnUpdating` / `OnRendering` calls made so far, in order. */
    var trace: seq<Dispatch>
    /** `disposedValue` */
    var disposed: bool

    function State(): Lifecycle
      reads this
    {
      Lifecycle(cts, launched)
    }

    constructor (options: GameEngineOptions)
      ensures this.options == options
      ensures State() == Lifecycle(None, 0) && trace == [] && !disposed
    {
      this.options := options;
      cts := None;
      launched := 0;
      trace := [];
      disposed := false;
    }

    /** The constructor's null check: null options throw
        `ArgumentNullException`; otherwise they are stored in a new, stopped
        engine. */
    static method Create(options: GameEngineOptions?) returns (r: Result<GameEngine, EngineError>)
      ensures r.Failure? <==> options == null
      ensures r.Failure? ==> r.error == ArgumentNullException
      ensures r.Success? ==> fresh(r.value) && r.value.options == options
      ensures r.Success? ==> r.value.State() == Lifecycle(None, 0) && r.value.trace == [] && !r.value.disposed
    {
      if options == null {
        return Failure(ArgumentNullException);
      }
      var e := new GameEngine(options);
      r := Success(e);
    }

    /** Launches a loop unless a token source already exists. */
    method Start()
      modifies this
      ensures State() == AfterStart(old(State()))
      ensures trace == old(trace) && disposed == old(disposed)
    {
      if cts.Some? {
        return;
      }
      cts := Some(TokenSource(false));
      launched := launched + 1;
    }

    /** Requests cancellation of the running loop, if any; `_cts` stays. */
    method Stop()
      modifies this
      ensures State() == AfterStop(old(State()))
      ensures trace == old(trace) && disposed == old(disposed)
    {
      if cts.None? {
        return;
      }
      cts := Some(TokenSource(true));
    }

    /** One run of the loop launched by `Start`.  `sync` is the reading taken
        by `var sync = DateTime.Now`, `frames` the readings of the iterations
        that run, and the caller's `Stop` lands after the last of them (before
        the first test when there are none): during its delay when
        `stopDuringDelay`, otherwise before the next `while` test.  Returns
        how the run ended and the `Task.Delay` arguments it used. */
    method Loop(sync: int, frames: seq<FrameClock>, stopDuringDelay: bool) returns (exit: LoopExit, delays: seq<int>)
      requires cts.Some? && options.Valid()
      requires cts.value.cancellationRequested <==> frames == []
      modifies this
      ensures var run := RunLoop(options.FrameRate(), options.FrameRenderIgnoreThreshold(), sync, frames, stopDuringDelay);
              trace == old(trace) + run.dispatches && delays == run.delays && exit == run.exit
      ensures exit == Faulted ==> State() == old(State())
      ensures exit != Faulted ==> State() == AfterLoop(AfterStop(old(State())), exit)
      ensures disposed == old(disposed)
    {
      if options.FrameRate() == 0 {
        // `1000 / _options.FrameRate` throws DivideByZeroException
        return Faulted, [];
      }
      var mpf := 1000 / options.FrameRate();
      assert mpf == MillisecondsPerFrame(options.FrameRate());
      exit, delays := Frames(mpf, options.FrameRenderIgnoreThreshold(), sync, frames, stopDuringDelay);
    }

    /** The `while` loop of `Loop`, from `var frameId = 0` to the clean-up
        that sets `_cts = null`, with budget `mpf`. */
    method Frames(mpf: nat, threshold: Option<real>, sync: int, frames: seq<FrameClock>, stopDuringDelay: bool)
      returns (exit: LoopExit, delays: seq<int>)
      requires cts.Some?
      requires cts.value.cancellationRequested <==> frames == []
      modifies this
      ensures var run := RunFrames(mpf, threshold, sync, frames, stopDuringDelay);
              trace == old(trace) + run.dispatches && delays == run.delays && exit == run.exit
      ensures cts == match exit
                     case Faulted => old(cts)
                     case Cancelled => Some(TokenSource(true))
                     case Completed => None
      ensures launched == old(launched) && disposed == old(disposed)
    {
      delays := [];
      var frameId: Int32 := 0;
      var i := 0;
      while !cts.value.cancellationRequested
        invariant cts.Some? && 0 <= i <= |frames|
        invariant cts.value.cancellationRequested <==> i == |frames|
        invariant i < |frames| ==> cts == old(cts)
        invariant i == |frames| ==> cts == Some(TokenSource(true))
        invariant launched == old(launched) && disposed == old(disposed)
        invariant frameId == Wrap(i)
        invariant 0 < mpf || i == 0
        invariant 0 < i == |frames| ==> !stopDuringDelay
        invariant trace == old(trace) + Dispatches(mpf, threshold, frames[..i])
        invariant 0 < mpf ==> delays == Delays(sync, mpf, frames[..i])
        invariant mpf == 0 ==> delays == []
        decreases |frames| - i
      {
        NextFrameId(i);
        var delay;
        frameId, delay := Iterate(frameId, mpf, threshold, sync, frames[i]);
        DispatchesStep(mpf, threshold, frames, i);
        assert trace == old(trace) + Dispatches(mpf, threshold, frames[..i + 1]);
        if delay.None? {
          assert i == 0 && frames[..1][..0] == [];
          return Faulted, [];
        }
        delays := delays + [delay.value];
        DelaysStep(sync, mpf, frames, i);
        i := i + 1;
        if i == |frames| {
          // the caller's `Stop` lands here
          Stop();
          if stopDuringDelay {
            // `await Task.Delay(..., _cts.Token)` throws TaskCanceledException
            assert frames[..i] == frames;
            return Cancelled, delays;
          }
        }
      }
      assert frames[..i] == frames;
      cts := None;
      exit := Completed;
    }

    /** One pass of the loop body, from `frameId++` to `Task.Delay`: `frameId++`, the tick with
        expiration `start + mpf`, `OnUpdating`, `OnRendering` when due, and
        the delay — or no delay, because `%` by a zero budget throws
        DivideByZeroException. */
    method Iterate(frameId: Int32, mpf: int, threshold: Option<real>, sync: int, clock: FrameClock)
      returns (nextId: Int32, delay: Option<int>)
      requires 0 <= mpf
      modifies this`trace
      ensures nextId == UncheckedIncrement(frameId)
      ensures trace == old(trace) + FrameDispatches(nextId, mpf, threshold, clock)
      ensures delay == if mpf == 0 then None else Some(SyncDelay(clock.updateNow - sync, mpf))
    {
      nextId := UncheckedIncrement(frameId);
      var expiration := clock.start + mpf;
      trace := trace + [Updating(FrameTick(nextId, expiration))];
      var offset := clock.updateNow - clock.start;
      if offset <= mpf && offset as real <= threshold.GetOr(1.0) * mpf as real {
        trace := trace + [Rendering(FrameTick(nextId, expiration))];
      }
      if mpf == 0 {
        return nextId, None;
      }
      var msOffset := CsRemainder(clock.updateNow - sync, mpf);
      delay := Some(mpf - msOffset);
    }

    /** `Dispose()`: sets `disposedValue` once and touches nothing else — in
        particular it does not stop a running loop. */
    method Dispose()
      modifies this
      ensures disposed
      ensures State() == old(State()) && trace == old(trace)
    {
      if !disposed {
        disposed := true;
      }
    }
  }
}
