/**
 * `MinExperiments::run_custom_parallel_tests`: time
 * `custom_parallel_min_element` three times for every candidate K, store the
 * truncated mean in `times_by_K[K]`, and keep the K with the smallest mean
 * (the first one found, on ties) in the report.
 *
 * The wall clock is not modelled: `duration(K, i)` is the number of
 * microseconds that the i-th timed run for K took.
 */
module Experiments {
  import opened Report
  import opened Partition
  import opened ParallelMin
  import opened KValues

  /** `num_runs`: each K is timed this many times. */
  const NumRuns: nat := 3

  /** `total_time` after the first `runs` timed runs for K: no run's duration exceeds it. */
  function TrialTotal(duration: (int, nat) -> nat, k: int, runs: nat): (total: nat)
    ensures forall i :: 0 <= i < runs ==> duration(k, i) <= total
  {
    if runs == 0 then 0 else TrialTotal(duration, k, runs - 1) + duration(k, runs - 1)
  }

  /**
   * `avg_time = total_time / num_runs`. Both operands are non-negative, so
   * the truncating C++ division and Dafny's agree. The average lies between
   * the fastest and the slowest of the three runs.
   */
  function AverageTime(duration: (int, nat) -> nat, k: int): (avg: nat)
    ensures duration(k, 0) <= avg || duration(k, 1) <= avg || duration(k, 2) <= avg
    ensures avg <= duration(k, 0) || avg <= duration(k, 1) || avg <= duration(k, 2)
  {
    assert TrialTotal(duration, k, NumRuns) == duration(k, 0) + duration(k, 1) + duration(k, 2) by {
      assert TrialTotal(duration, k, 1) == duration(k, 0);
    }
    TrialTotal(duration, k, NumRuns) / NumRuns
  }

  /** The average is the mean of the three runs rounded down. */
  lemma AverageIsTruncatedMean(duration: (int, nat) -> nat, k: int)
    ensures var sum := duration(k, 0) + duration(k, 1) + duration(k, 2);
      AverageTime(duration, k) * 3 <= sum < (AverageTime(duration, k) + 1) * 3
  {
    assert TrialTotal(duration, k, 1) == duration(k, 0);
    assert TrialTotal(duration, k, 2) == duration(k, 0) + duration(k, 1);
    assert TrialTotal(duration, k, NumRuns) == duration(k, 0) + duration(k, 1) + duration(k, 2);
  }

  /**
   * One pass of the K loop's body: write `times_by_K[K]`, then take K as the
   * best when no best is recorded yet or its average is strictly smaller.
   */
  function RecordAverage(r: CustomParallelReport, k: int, avg: int): (s: CustomParallelReport)
    ensures k in s.timesByK && s.timesByK[k] == avg
    ensures s.timesByK.Keys == r.timesByK.Keys + {k}
    ensures s.hardwareConcurrency == r.hardwareConcurrency
    ensures forall j :: j in r.timesByK && j != k ==> s.timesByK[j] == r.timesByK[j]
    ensures r.HasNoWinner() ==> s.bestTimeUs == avg && s.bestK == k
    ensures !r.HasNoWinner() ==> s.bestTimeUs == Min(r.bestTimeUs, avg)
    ensures !r.HasNoWinner() && avg < r.bestTimeUs ==> s.bestK == k
    ensures !r.HasNoWinner() && r.bestTimeUs <= avg ==> s.bestK == r.bestK && s.bestTimeUs == r.bestTimeUs
    ensures s.bestK == r.bestK || s.bestK == k
  {
    var written := r.(timesByK := r.timesByK[k := avg]);
    if written.bestTimeUs == NoTime || avg < written.bestTimeUs then
      written.(bestTimeUs := avg, bestK := k)
    else
      written
  }

  /** The report after the K loop has processed the worker counts ks in order, starting from r. */
  function SweepReport(r: CustomParallelReport, ks: seq<int>, duration: (int, nat) -> nat): (s: CustomParallelReport)
    ensures s.hardwareConcurrency == r.hardwareConcurrency
    ensures ks != [] ==> !s.HasNoWinner()
  {
    if ks == [] then r
    else
      var last := ks[|ks| - 1];
      RecordAverage(SweepReport(r, ks[..|ks| - 1], duration), last, AverageTime(duration, last))
  }

  /**
   * After the sweep, `times_by_K` holds one entry per swept K, equal to its
   * average; entries for K not swept are as before; the hardware concurrency
   * is untouched.
   */
  lemma {:induction false} SweepTimes(r: CustomParallelReport, ks: seq<int>, duration: (int, nat) -> nat)
    ensures var s := SweepReport(r, ks, duration);
      && s.timesByK.Keys == r.timesByK.Keys + (set k | k in ks)
      && (forall k :: k in ks ==> k in s.timesByK && s.timesByK[k] == AverageTime(duration, k))
      && (forall k :: k in r.timesByK && k !in ks ==> k in s.timesByK && s.timesByK[k] == r.timesByK[k])
      && s.hardwareConcurrency == r.hardwareConcurrency
  {
    if ks != [] {
      var front, last := ks[..|ks| - 1], ks[|ks| - 1];
      SweepTimes(r, front, duration);
      var p := SweepReport(r, front, duration);
      assert SweepReport(r, ks, duration).timesByK == p.timesByK[last := AverageTime(duration, last)];
      assert forall k :: k in ks <==> k in front || k == last;
      assert (set k | k in ks) == (set k | k in front) + {last};
    }
  }

  /**
   * Once a best time is recorded it never goes back to the sentinel and never
   * increases; the best K is then the old one or one of the swept ones.
   */
  lemma {:induction false} SweepBestMonotone(r: CustomParallelReport, ks: seq<int>, duration: (int, nat) -> nat)
    requires !r.HasNoWinner()
    ensures var s := SweepReport(r, ks, duration);
      && !s.HasNoWinner()
      && s.bestTimeUs <= r.bestTimeUs
      && (s.bestK == r.bestK || s.bestK in ks)
  {
    if ks != [] {
      var front := ks[..|ks| - 1];
      SweepBestMonotone(r, front, duration);
      assert forall k :: k in front ==> k in ks;
    }
  }

  /**
   * s records as best the smallest average over ks, under the first K in
   * list order that reaches it: whenever the K at position j reaches the
   * minimum, the best K occurs among the first j + 1 entries.
   */
  ghost predicate HoldsFirstMinimum(s: CustomParallelReport, ks: seq<int>, duration: (int, nat) -> nat) {
    && !s.HasNoWinner()
    && s.bestK in ks
    && s.bestTimeUs == AverageTime(duration, s.bestK)
    && (forall k :: k in ks ==> s.bestTimeUs <= AverageTime(duration, k))
    && (forall j :: 0 <= j < |ks| && AverageTime(duration, ks[j]) == s.bestTimeUs ==> s.bestK in ks[..j + 1])
  }

  /** One more pass of the K loop keeps the first minimum over the longer list. */
  lemma RecordKeepsFirstMinimum(p: CustomParallelReport, front: seq<int>, last: int, duration: (int, nat) -> nat)
    requires HoldsFirstMinimum(p, front, duration)
    ensures HoldsFirstMinimum(RecordAverage(p, last, AverageTime(duration, last)), front + [last], duration)
  {
    var ks := front + [last];
    var avg := AverageTime(duration, last);
    var s := RecordAverage(p, last, avg);
    assert forall k :: k in ks <==> k in front || k == last;
    forall j | 0 <= j < |ks| && AverageTime(duration, ks[j]) == s.bestTimeUs
      ensures s.bestK in ks[..j + 1]
    {
      if j == |front| {
        assert ks[..j + 1] == ks;
      } else if p.bestTimeUs <= avg {
        assert ks[..j + 1] == front[..j + 1];
      }
      // otherwise ks[j] is in front and its average is at least p.bestTimeUs > avg: no such j
    }
  }

  /**
   * Sweeping a non-empty K list from a report with no winner leaves as best
   * time the smallest average, and as best K the first K in list order that
   * reaches it (later K with an equal average do not replace it).
   */
  lemma {:induction false} SweepFindsFirstMinimum(r: CustomParallelReport, ks: seq<int>, duration: (int, nat) -> nat)
    requires r.HasNoWinner()
    requires ks != []
    ensures HoldsFirstMinimum(SweepReport(r, ks, duration), ks, duration)
  {
    var front, last := ks[..|ks| - 1], ks[|ks| - 1];
    assert ks == front + [last];
    if front == [] {
      assert ks == [last];
    } else {
      SweepFindsFirstMinimum(r, front, duration);
      RecordKeepsFirstMinimum(SweepReport(r, front, duration), front, last, duration);
    }
  }

  /**
   * A default-initialised report has no winner and best K 0, and its
   * hardware concurrency of 0 plans the sweep over K = 1 and K = 2 only.
   */
  lemma DefaultReportPlansOneAndTwo()
    ensures DefaultReport.HasNoWinner() && DefaultReport.bestK == 0
    ensures KCandidates(DefaultReport.hardwareConcurrency) == [1, 2]
  {
    KCandidatesExamples();
  }

  /**
   * The worked example: [5, 3, 8, 1, 9, 2] split between two workers gives
   * the chunks [5, 3, 8] and [1, 9, 2], whose minima 3 and 1 fold to 1, the
   * minimum of the whole data.
   */
  lemma TwoWorkerExample()
    ensures Chunk([5, 3, 8, 1, 9, 2], 2, 0) == [5, 3, 8]
    ensures Chunk([5, 3, 8, 1, 9, 2], 2, 1) == [1, 9, 2]
    ensures IsMinOf(3, Chunk([5, 3, 8, 1, 9, 2], 2, 0))
    ensures IsMinOf(1, Chunk([5, 3, 8, 1, 9, 2], 2, 1))
    ensures FoldMin(IntMax, [3, 1]) == 1
    ensures IsMinOf(1, [5, 3, 8, 1, 9, 2])
  {
    var data := [5, 3, 8, 1, 9, 2];
    assert ChunkStart(6, 2, 1) == 3 && ChunkStart(6, 2, 2) == 6;
    assert data[0..3] == [5, 3, 8] && data[3..6] == [1, 9, 2];
    ChunkMinimaCombine(data, 2, [3, 1]);
  }

  /** The experiment over one borrowed data set. */
  class MinExperiments {
    /** `data_`: borrowed, never written. */
    const data: seq<Int32>
    /** `custom_report_`. */
    var report: CustomParallelReport

    /** The hardware concurrency is passed in instead of asked of the runtime. */
    constructor (data: seq<Int32>, hardwareConcurrency: int)
      ensures this.data == data
      ensures report == DefaultReport.(hardwareConcurrency := hardwareConcurrency)
    {
      this.data := data;
      report := DefaultReport.(hardwareConcurrency := hardwareConcurrency);
    }

    /**
     * The timing loop for one K: run `custom_parallel_min_element(K)`
     * NumRuns times, add up the measured durations, and return their
     * truncated mean.
     */
    method TimeWorkerCount(k: Int32, duration: (int, nat) -> nat) returns (avgTime: nat)
      requires |data| <= IntMax
      requires k >= 1
      ensures avgTime == AverageTime(duration, k)
    {
      var totalTime := 0;
      for i := 0 to NumRuns
        invariant totalTime == TrialTotal(duration, k, i)
      {
        // the timed call; its result is not used
        var _ := CustomParallelMinElement(data, k);
        totalTime := totalTime + duration(k, i);
      }
      avgTime := totalTime / NumRuns;
    }

    /**
     * The rest of the loop body: store the average for K, and make K the
     * best when no best exists yet or its average is strictly smaller.
     */
    method RecordTime(k: int, avgTime: int)
      modifies this
      ensures report == RecordAverage(old(report), k, avgTime)
    {
      report := report.(timesByK := report.timesByK[k := avgTime]);
      if report.bestTimeUs == NoTime || avgTime < report.bestTimeUs {
        report := report.(bestTimeUs := avgTime, bestK := k);
      }
    }

    /**
     * The K loop of `run_custom_parallel_tests`: for each K of ks in order,
     * time it and record its average and the best K in the report.
     */
    method SweepWorkerCounts(ks: seq<int>, duration: (int, nat) -> nat)
      requires |data| <= IntMax
      requires forall k :: k in ks ==> 1 <= k <= IntMax
      modifies this
      ensures report == SweepReport(old(report), ks, duration)
    {
      ghost var start := report;
      for idx := 0 to |ks|
        invariant report == SweepReport(start, ks[..idx], duration)
      {
        var k := ks[idx];
        assert k in ks;
        var avgTime := TimeWorkerCount(k, duration);
        RecordTime(k, avgTime);
        assert ks[..idx + 1][..idx] == ks[..idx];
        assert ks[..idx + 1][idx] == k;
      }
      assert ks[..|ks|] == ks;
    }

    /**
     * `run_custom_parallel_tests`: build the K list for the recorded
     * hardware concurrency, then sweep it.
     */
    method RunCustomParallelTests(duration: (int, nat) -> nat)
      requires |data| <= IntMax
      requires TimesFourFits(report.hardwareConcurrency)
      modifies this
      ensures report == SweepReport(old(report), KCandidates(old(report).hardwareConcurrency), duration)
      ensures old(report).HasNoWinner() ==> HoldsFirstMinimum(report, KCandidates(report.hardwareConcurrency), duration)
      ensures !old(report).HasNoWinner() ==> !report.HasNoWinner() && report.bestTimeUs <= old(report).bestTimeUs
    {
      var hardwareConcurrency := report.hardwareConcurrency;
      var kValues := GenerateKValues(hardwareConcurrency);
      BaseCandidatesIncreasing(hardwareConcurrency);
      ghost var start := report;
      SweepWorkerCounts(kValues, duration);
      SweepTimes(start, kValues, duration);
      if start.HasNoWinner() {
        SweepFindsFirstMinimum(start, kValues, duration);
      } else {
        SweepBestMonotone(start, kValues, duration);
      }
    }
  }
}
