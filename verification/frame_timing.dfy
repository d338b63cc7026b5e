/**
 * The arithmetic of one frame of `GameEngine.Loop` (Engine/GameEngine.cs):
 * the per-frame budget, the render-or-skip decision and the delay that
 * keeps wake-ups on the grid anchored at the loop's start.  Times are
 * whole milliseconds.
 */
module FrameTiming {
  import opened Wrappers

  /** The clock readings of one loop iteration: `start` (the source's `then`) before `OnUpdating`
      and `updateNow` after it. */
  datatype FrameClock = FrameClock(start: int, updateNow: int)

  /** `1000 / FrameRate`, computed once per loop run: the largest whole
      number of milliseconds such that `FrameRate` frames fit in a second. */
  function MillisecondsPerFrame(frameRate: int): (mpf: int)
    requires frameRate > 0
    ensures 0 <= mpf
    ensures mpf * frameRate <= 1000 < (mpf + 1) * frameRate
  {
    var q := 1000 / frameRate;
    assert 1000 == q * frameRate + 1000 % frameRate;
    q
  }

  /** The budget is at least 1 ms exactly for rates up to 1000; above that
      it is 0. */
  lemma BudgetPositiveIff(frameRate: int)
    requires frameRate > 0
    ensures 1 <= MillisecondsPerFrame(frameRate) <==> frameRate <= 1000
  {
    var mpf := MillisecondsPerFrame(frameRate);
    assert (mpf + 1) * frameRate == mpf * frameRate + frameRate;
    if 1 <= mpf {
      MulAtLeast(mpf, frameRate);
    }
  }

  /** Whether `OnRendering` is dispatched after an update that took
      `offset` ms: within the budget and within `threshold ?? 1` of it. */
  predicate RenderDue(offset: int, mpf: int, threshold: Option<real>) {
    offset <= mpf && offset as real <= threshold.GetOr(1.0) * mpf as real
  }

  /** Without a threshold only the budget matters. */
  lemma RenderDueWithoutThreshold(offset: int, mpf: int)
    ensures RenderDue(offset, mpf, None) <==> offset <= mpf
  {
  }

  /** A threshold in [0, 1] makes the budget test redundant: the render is
      due iff the update took at most that fraction of the budget. */
  lemma RenderDueWithThreshold(offset: int, mpf: int, t: real)
    requires 0.0 <= t <= 1.0 && 0 <= mpf
    ensures RenderDue(offset, mpf, Some(t)) <==> offset as real <= t * mpf as real
  {
    assert t * mpf as real <= 1.0 * mpf as real;
  }

  /** With threshold 0 a render is due only after an update that took no
      time at all. */
  lemma ZeroThresholdSkipsTimedUpdates(offset: int, mpf: int)
    requires 0 <= mpf
    ensures RenderDue(offset, mpf, Some(0.0)) <==> offset <= 0
  {
  }

  /** A slower update never renders where a faster one would not, and a
      larger threshold never renders less. */
  lemma RenderDueMonotone(o1: int, o2: int, mpf: int, t1: real, t2: real)
    requires o1 <= o2 && 0 <= mpf && t1 <= t2
    ensures RenderDue(o2, mpf, Some(t1)) ==> RenderDue(o1, mpf, Some(t2))
  {
    var m := mpf as real;
    assert (t2 - t1) * m >= 0.0;
    assert t2 * m - t1 * m == (t2 - t1) * m;
    assert o1 as real <= o2 as real;
  }

  /** C#'s `/` on `int`, which truncates toward zero: the quotient times
      the divisor lies between zero and the dividend, less than one divisor
      away from it. */
  function CsQuotient(a: int, b: int): (q: int)
    requires b > 0
    ensures 0 <= a ==> q * b <= a < q * b + b
    ensures a < 0 ==> q * b - b < a <= q * b
    ensures 0 <= a ==> 0 <= q
    ensures a <= 0 ==> q <= 0
  {
    if a >= 0 then
      assert a == (a / b) * b + a % b;
      a / b
    else
      var k := (-a) / b;
      assert -a == k * b + (-a) % b;
      -k
  }

  /** C#'s `%` on `int`: the remainder of truncating division, so it takes
      the sign of the dividend. */
  function CsRemainder(a: int, b: int): (r: int)
    requires b > 0
    ensures a == CsQuotient(a, b) * b + r
    ensures -b < r < b
    ensures a >= 0 ==> r >= 0
    ensures a <= 0 ==> r <= 0
  {
    if a >= 0 then a % b else -((-a) % b)
  }

  /** `millisecondsPerFrame - msOffset` at GameEngine.cs:99-103, where
      `sinceSync` is `updateNow - sync`.  The wake-up `sinceSync + delay`
      falls on the grid of multiples of `mpf` measured from `sync`: at the
      first grid point after `updateNow` whenever the clock has not gone
      back past `sync`.  The delay is always a valid `Task.Delay` argument. */
  function SyncDelay(sinceSync: int, mpf: int): (delay: int)
    requires mpf > 0
    ensures 1 <= delay < 2 * mpf
    ensures sinceSync + delay == (CsQuotient(sinceSync, mpf) + 1) * mpf
    ensures sinceSync >= 0 ==> delay <= mpf && sinceSync < (CsQuotient(sinceSync, mpf) + 1) * mpf
  {
    mpf - CsRemainder(sinceSync, mpf)
  }

  /** An idealised run: the first frame starts at `sync`, each update takes
      less than the budget, and each frame starts when the previous delay
      has elapsed. */
  ghost predicate IdealSchedule(sync: int, mpf: int, frames: seq<FrameClock>) {
    && mpf > 0
    && (|frames| > 0 ==> frames[0].start == sync)
    && (forall i :: 0 <= i < |frames| ==> 0 <= frames[i].updateNow - frames[i].start < mpf)
    && (forall i :: 0 < i < |frames| ==>
          frames[i].start == frames[i - 1].updateNow + SyncDelay(frames[i - 1].updateNow - sync, mpf))
  }

  /** Drift correction: in an idealised run the i-th frame starts exactly at
      `sync + i * mpf`, however long each update took. */
  lemma {:induction false} IdealScheduleKeepsCadence(sync: int, mpf: int, frames: seq<FrameClock>)
    requires IdealSchedule(sync, mpf, frames)
    ensures forall i :: 0 <= i < |frames| ==> frames[i].start == sync + i * mpf
  {
    if |frames| > 1 {
      var n := |frames| - 1;
      var init := frames[..n];
      assert IdealSchedule(sync, mpf, init);
      IdealScheduleKeepsCadence(sync, mpf, init);
      forall i | 0 <= i < n
        ensures frames[i].start == sync + i * mpf
      {
        assert frames[i] == init[i];
      }
      CadenceStep(sync, mpf, n, frames[n - 1], frames[n]);
    }
  }

  /** A frame that starts on the grid and updates within its budget is
      followed by one that starts on the next grid point. */
  lemma CadenceStep(sync: int, mpf: int, n: nat, prev: FrameClock, next: FrameClock)
    requires mpf > 0 && 0 < n
    requires prev.start == sync + (n - 1) * mpf
    requires 0 <= prev.updateNow - prev.start < mpf
    requires next.start == prev.updateNow + SyncDelay(prev.updateNow - sync, mpf)
    ensures next.start == sync + n * mpf
  {
    GridQuotient(n - 1, prev.updateNow - prev.start, mpf);
  }

  lemma GridQuotient(i: nat, d: int, mpf: int)
    requires 0 <= d < mpf
    ensures CsQuotient(i * mpf + d, mpf) == i
  {
    var a := i * mpf + d;
    assert 0 <= a by { MulNonneg(i, mpf); }
    var q := a / mpf;
    assert a == q * mpf + a % mpf;
    assert (i - q) * mpf == a % mpf - d;
    SmallMultipleIsZero(i - q, mpf);
  }

  lemma MulNonneg(x: nat, y: int)
    requires 0 <= y
    ensures 0 <= x * y
  {
  }

  lemma MulAtLeast(x: int, b: int)
    requires 1 <= x && 0 <= b
    ensures b <= x * b
  {
    MulNonneg(x - 1, b);
    assert x * b == (x - 1) * b + b;
  }

  lemma SmallMultipleIsZero(x: int, b: int)
    requires 0 < b && -b < x * b < b
    ensures x == 0
  {
    if x > 0 {
      MulAtLeast(x, b);
    } else if x < 0 {
      MulAtLeast(-x, b);
    }
  }

  /** At 30 frames per second the budget is 33 ms; an idealised run starts
      frames 0 to 30 within its first second, 31 updates in all. */
  lemma ThirtyFramesPerSecond(sync: int, frames: seq<FrameClock>)
    requires IdealSchedule(sync, MillisecondsPerFrame(30), frames)
    ensures MillisecondsPerFrame(30) == 33
    ensures forall i :: 0 <= i < |frames| ==> (frames[i].start < sync + 1000 <==> i <= 30)
  {
    IdealScheduleKeepsCadence(sync, 33, frames);
  }
}
