/**
 * `GameEngineOptions` (Engine/GameEngineOptions.cs): the frame rate and the
 * optional render-ignore threshold, each behind a guarded setter.
 */
module EngineOptions {
  import opened Wrappers
  import opened FrameEvents

  /** What a rejected assignment throws. */
  datatype OptionsError = InvalidOperationException(message: string)

  const FrameRateMessage: string := "FrameRate must be greater than zero."
  const ThresholdMessage: string := "FrameRenderIgnoreThreshold must be between 0 and 1."

  /** The guard of the `FrameRate` setter. */
  predicate FrameRateRejected(value: int) {
    value < 0
  }

  /** The guard of the `FrameRenderIgnoreThreshold` setter, `value < 0 ||
      value > 1` on a nullable float: a lifted comparison with null is false. */
  predicate ThresholdRejected(value: Option<real>) {
    value.Some? && (value.value < 0.0 || value.value > 1.0)
  }

  class GameEngineOptions {
    /** `_frameRate` */
    var rate: Int32
    /** `_frameRenderIgnoreThreshold` */
    var ignoreThreshold: Option<real>

    /** What every reachable state satisfies: both fields passed their guard. */
    ghost predicate Valid()
      reads this
    {
      0 <= rate && (ignoreThreshold == None || 0.0 <= ignoreThreshold.value <= 1.0)
    }

    /** Both fields start at their C# default: 0 and null. */
    constructor ()
      ensures Valid()
      ensures rate == 0 && ignoreThreshold == None
    {
      rate := 0;
      ignoreThreshold := None;
    }

    /** The `FrameRate` getter. */
    function FrameRate(): Int32
      reads this
    {
      rate
    }

    /** The `FrameRenderIgnoreThreshold` getter. */
    function FrameRenderIgnoreThreshold(): Option<real>
      reads this
    {
      ignoreThreshold
    }

    /** The `FrameRate` setter: a negative value throws and leaves the rate as
        it was; any other value is stored and read back by the getter. */
    method SetFrameRate(value: Int32) returns (r: Outcome<OptionsError>)
      requires Valid()
      modifies this
      ensures Valid()
      ensures r == (if value < 0 then Fail(InvalidOperationException(FrameRateMessage)) else Pass)
      ensures FrameRate() == (if r.Pass? then value else old(FrameRate()))
      ensures FrameRenderIgnoreThreshold() == old(FrameRenderIgnoreThreshold())
    {
      if FrameRateRejected(value) {
        return Fail(InvalidOperationException(FrameRateMessage));
      }
      rate := value;
      r := Pass;
    }

    /** The `FrameRenderIgnoreThreshold` setter: a value below 0 or above 1
        throws and leaves the threshold as it was; null or a fraction in
        [0, 1] is stored and read back by the getter. */
    method SetFrameRenderIgnoreThreshold(value: Option<real>) returns (r: Outcome<OptionsError>)
      requires Valid()
      modifies this
      ensures Valid()
      ensures r.Fail? <==> value.Some? && (value.value < 0.0 || value.value > 1.0)
      ensures r.Fail? ==> r.error == InvalidOperationException(ThresholdMessage)
      ensures FrameRenderIgnoreThreshold() == (if r.Pass? then value else old(FrameRenderIgnoreThreshold()))
      ensures FrameRate() == old(FrameRate())
    {
      if ThresholdRejected(value) {
        return Fail(InvalidOperationException(ThresholdMessage));
      }
      ignoreThreshold := value;
      r := Pass;
    }
  }
}
