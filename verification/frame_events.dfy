/**
 * The per-frame record handed to `OnUpdating` and `OnRendering`
 * (Engine/UpdatingEventArgs.cs, Engine/RenderingEventArgs.cs) and the
 * 32-bit frame counter that numbers it.
 */
module FrameEvents {

  const MinInt32: int := -0x8000_0000
  const MaxInt32: int := 0x7fff_ffff
  /** Number of distinct 32-bit values. */
  const Int32Span: int := 0x1_0000_0000

  /** C#'s `int`. */
  type Int32 = x: int | MinInt32 <= x <= MaxInt32

  /** Two's-complement truncation of an integer to 32 bits: the unique
      32-bit value congruent to `n` modulo 2^32. */
  function Wrap(n: int): (r: Int32)
    ensures (r - n) % Int32Span == 0
    ensures MinInt32 <= n <= MaxInt32 ==> r == n
  {
    (n - MinInt32) % Int32Span + MinInt32
  }

  /** `frameId++` inside `unchecked { }`: the maximum steps to the minimum. */
  function UncheckedIncrement(x: Int32): (r: Int32)
    ensures r == Wrap(x + 1)
  {
    if x == MaxInt32 then MinInt32 else x + 1
  }

  /** Truncating a sum to 32 bits only depends on the truncated summand. */
  lemma WrapShift(a: int, b: int)
    ensures Wrap(Wrap(a) + b) == Wrap(a + b)
  {
    var k := (a - MinInt32) / Int32Span;
    assert Wrap(a) == a - k * Int32Span;
    assert (Wrap(a) + b - MinInt32) == (a + b - MinInt32) - k * Int32Span;
    ModShift(a + b - MinInt32, k);
  }

  lemma ModShift(x: int, k: int)
    ensures (x - k * Int32Span) % Int32Span == x % Int32Span
  {
    var q, r := x / Int32Span, x % Int32Span;
    assert x - k * Int32Span == (q - k) * Int32Span + r;
  }

  /** Counting from 0, the n-th `frameId++` yields Wrap(n): the frame after
      the maximum carries the minimum. */
  lemma NextFrameId(n: int)
    ensures UncheckedIncrement(Wrap(n)) == Wrap(n + 1)
    ensures Wrap(n) == MaxInt32 ==> Wrap(n + 1) == MinInt32
  {
    WrapShift(n, 1);
  }

  /** Frame ids repeat only after 2^32 frames. */
  lemma FrameIdsDistinct(i: int, j: int)
    requires i < j < i + Int32Span
    ensures Wrap(i) != Wrap(j)
  {
    var ki, kj := (i - MinInt32) / Int32Span, (j - MinInt32) / Int32Span;
    assert Wrap(i) == i - ki * Int32Span;
    assert Wrap(j) == j - kj * Int32Span;
    assert ki <= kj <= ki + 1;
    assert Wrap(j) - Wrap(i) == (j - i) - (kj - ki) * Int32Span;
  }

  /** What `UpdatingEventArgs` and `RenderingEventArgs` carry: the frame id
      and the instant (in whole milliseconds) by which the frame should end. */
  datatype FrameTick = FrameTick(frameId: Int32, expiration: int)

  /** One call of a dispatch hook, in the order the loop makes them. */
  datatype Dispatch = Updating(tick: FrameTick) | Rendering(tick: FrameTick)
}
