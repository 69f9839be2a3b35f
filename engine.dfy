/**
 * The inner complex-to-complex FFT engine, seen only through what the repacker uses:
 * a planned size, a direction, and the bins it produces for a buffer of that size.
 */
module Engine {
  import opened ComplexArith

  datatype Direction = FftForward | FftInverse

  /** `Bins(s, k)` is bin `k` of the engine's transform of the buffer `s`. */
  type Bins = (seq<Complex>, nat) -> Complex

  /** What `FftPlanner::plan_fft_forward` / `plan_fft_inverse` hand back for a size and direction. */
  type Planner = (nat, Direction) -> Bins

  /** A planned transform: `Arc<dyn Fft<T>>`. */
  datatype PlannedFft = PlannedFft(size: nat, direction: Direction, bins: Bins)

  /** Planning a transform of the given size and direction. */
  function Plan(planner: Planner, size: nat, direction: Direction): PlannedFft
  {
    PlannedFft(size, direction, planner(size, direction))
  }

  /**
   * Running the engine over a buffer of its planned size (in place or out of place):
   * the buffer is replaced by the engine's bins, so the length is preserved.
   */
  function Transform(e: PlannedFft, s: seq<Complex>): (r: seq<Complex>)
    requires |s| == e.size
    ensures |r| == |s|
  {
    seq(|s|, k requires 0 <= k < |s| => e.bins(s, k))
  }
}
