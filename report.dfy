/**
 * The record that the sweep fills in (Lab1/min_experiments.h), and the
 * 32-bit integer range of the C++ `int` values the experiments work on.
 */
module Report {

  const IntMin: int := -0x8000_0000
  /** `std::numeric_limits<int>::max()`, the start value of the fold over partial minima. */
  const IntMax: int := 0x7FFF_FFFF

  /** A C++ `int`. */
  type Int32 = x: int | IntMin <= x <= IntMax

  /** The sentinel `best_time_us` holds while no K has been timed. */
  const NoTime: int := -1

  /**
   * `CustomParallelReport`: the averaged time for every K timed so far (a
   * `std::map`, so one entry per K), the best K with its time, and the
   * hardware concurrency the sweep was planned for.
   */
  datatype CustomParallelReport = CustomParallelReport(
    timesByK: map<int, int>,
    bestK: int,
    bestTimeUs: int,
    hardwareConcurrency: int)
  {
    /** No K has won yet: `best_time_us` still holds its sentinel. */
    predicate HasNoWinner() {
      bestTimeUs == NoTime
    }
  }

  /** The default-initialised record: no entries, `best_K = 0`, `best_time_us = -1`, `hardware_concurrency = 0`. */
  const DefaultReport: CustomParallelReport := CustomParallelReport(map[], 0, NoTime, 0)
}
