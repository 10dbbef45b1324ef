/**
 * `MinExperiments::custom_parallel_min_element`: split the data into
 * min(size, K) contiguous chunks, take the minimum of each chunk, and fold
 * the partial minima with `min` starting from INT_MAX. The workers that the
 * C++ code launches with `std::async` are evaluated one after the other
 * here; the fold reads their results in chunk order, as the C++ code does.
 */
module ParallelMin {
  import opened Report
  import opened Partition

  /** m is the minimum of s: it occurs in s and nothing in s is smaller. */
  ghost predicate IsMinOf(m: int, s: seq<int>) {
    m in s && forall x :: x in s ==> m <= x
  }

  /** `std::min(a, b)`: b when b < a, else a; on a tie, a. */
  function Min(a: int, b: int): (r: int)
    ensures r <= a && r <= b
    ensures r == a || r == b
  {
    if b < a then b else a
  }

  /**
   * `overall_min = min(overall_min, result)` over the results in order. The
   * outcome lies below acc and below every element, and is acc itself or one
   * of the elements.
   */
  function FoldMin(acc: int, s: seq<int>): (r: int)
    ensures r <= acc
    ensures forall i :: 0 <= i < |s| ==> r <= s[i]
    ensures r == acc || r in s
    decreases |s|
  {
    if s == [] then acc else FoldMin(Min(acc, s[0]), s[1..])
  }

  /** At most one value is the minimum of a sequence. */
  lemma MinimumIsUnique(m1: int, m2: int, s: seq<int>)
    requires IsMinOf(m1, s) && IsMinOf(m2, s)
    ensures m1 == m2
  {
  }

  /**
   * The fold does not depend on the order in which the partial results are
   * combined: any rearrangement of them folds to the same value.
   */
  lemma FoldMinIgnoresOrder(acc: int, s: seq<int>, t: seq<int>)
    requires multiset(s) == multiset(t)
    ensures FoldMin(acc, s) == FoldMin(acc, t)
  {
    var a, b := FoldMin(acc, s), FoldMin(acc, t);
    forall x | x in s ensures x in t && b <= x {
      assert x in multiset(s);
      var i :| 0 <= i < |t| && t[i] == x;
    }
    forall x | x in t ensures x in s && a <= x {
      assert x in multiset(t);
      var i :| 0 <= i < |s| && s[i] == x;
    }
  }

  /** The worker task, `*std::min_element(begin, end)` over data[lo..hi]: a linear scan of one chunk. */
  method MinElement(data: seq<int>, lo: nat, hi: nat) returns (m: int)
    requires lo < hi <= |data|
    ensures IsMinOf(m, data[lo..hi])
  {
    m := data[lo];
    var i := lo + 1;
    while i < hi
      invariant lo < i <= hi
      invariant m in data[lo..i]
      invariant forall j :: lo <= j < i ==> m <= data[j]
    {
      assert data[lo..i + 1] == data[lo..i] + [data[i]];
      if data[i] < m {
        m := data[i];
      }
      i := i + 1;
    }
    forall x | x in data[lo..hi] ensures m <= x {
      var j :| 0 <= j < hi - lo && data[lo..hi][j] == x;
      assert data[lo + j] == x;
    }
  }

  /** An element of chunk c is bounded below by that chunk's minimum. */
  lemma ChunkMinimumBounds(data: seq<int>, n: nat, c: nat, m: int, i: nat)
    requires 1 <= n && c < n
    requires IsMinOf(m, Chunk(data, n, c))
    requires ChunkStart(|data|, n, c) <= i < ChunkStart(|data|, n, c + 1)
    ensures i < |data| && m <= data[i]
  {
    ChunkBounds(|data|, n, c);
    var chunk := Chunk(data, n, c);
    assert chunk[i - ChunkStart(|data|, n, c)] == data[i];
    assert data[i] in chunk;
  }

  /** A chunk's minimum is an element of the data. */
  lemma ChunkMinimumInData(data: seq<int>, n: nat, c: nat, m: int)
    requires 1 <= n && c < n
    requires IsMinOf(m, Chunk(data, n, c))
    ensures m in data
  {
    ChunkBounds(|data|, n, c);
    var lo := ChunkStart(|data|, n, c);
    var k :| 0 <= k < |Chunk(data, n, c)| && Chunk(data, n, c)[k] == m;
    assert data[lo + k] == m;
  }

  /**
   * Folding the chunk minima from INT_MAX gives the minimum of the whole
   * data: every element lies in some chunk, whose minimum bounds it, and the
   * fold lands on one of the chunk minima.
   */
  lemma ChunkMinimaCombine(data: seq<Int32>, n: nat, mins: seq<int>)
    requires 1 <= n <= |data|
    requires |mins| == n
    requires forall j :: 0 <= j < n ==> IsMinOf(mins[j], Chunk(data, n, j))
    ensures IsMinOf(FoldMin(IntMax, mins), data)
  {
    var size := |data|;
    var r := FoldMin(IntMax, mins);
    forall x | x in data ensures r <= x {
      var i :| 0 <= i < size && data[i] == x;
      ChunksCover(size, n, i);
      var c :| 0 <= c < n && ChunkStart(size, n, c) <= i < ChunkStart(size, n, c + 1);
      ChunkMinimumBounds(data, n, c, mins[c], i);
    }
    // mins[0] is an Int32, so the fold cannot stay at INT_MAX unless mins[0] is INT_MAX
    ChunkMinimumInData(data, n, 0, mins[0]);
    var j :| 0 <= j < n && mins[j] == r;
    ChunkMinimumInData(data, n, j, r);
  }

  /**
   * `custom_parallel_min_element(K)` over the borrowed `data_`.
   *
   * Empty data gives the sentinel 0 for every K. Otherwise the number of
   * workers is min(size, K); for K >= 1 the result is the minimum of the
   * data. K == 0 divides by zero, so callers must not pass it for non-empty
   * data. A negative K does not fail: converted to `size_t` it becomes a
   * huge divisor, the chunk loop runs zero times and INT_MAX comes back.
   * The size is cast to `int`, so it must fit in one.
   */
  method CustomParallelMinElement(data: seq<Int32>, k: Int32) returns (m: int)
    requires |data| <= IntMax
    requires |data| == 0 || k != 0
    ensures |data| == 0 ==> m == 0
    ensures |data| > 0 && k >= 1 ==> IsMinOf(m, data)
    ensures |data| > 0 && k < 0 ==> m == IntMax
  {
    var size := |data|;
    if size == 0 {
      return 0;
    }
    var numThreads := Min(size, k);
    // size / num_threads and size % num_threads are computed in size_t
    var divisor := if numThreads < 0 then 0x1_0000_0000_0000_0000 + numThreads else numThreads;
    var chunkSize := size / divisor;
    var remainder := size % divisor;

    var results: seq<int> := [];
    var currentStart := 0;
    var i := 0;
    while i < numThreads
      invariant 0 <= i && (numThreads >= 0 ==> i <= numThreads)
      invariant numThreads < 0 ==> results == []
      invariant |results| == i
      invariant numThreads >= 1 ==> currentStart == ChunkStart(size, numThreads, i) <= size
      invariant numThreads >= 1 ==> forall j :: 0 <= j < i ==> IsMinOf(results[j], Chunk(data, numThreads, j))
    {
      var currentLength := chunkSize + (if i < remainder then 1 else 0);
      var currentEnd := currentStart + currentLength;
      assert currentEnd == ChunkStart(size, numThreads, i + 1);
      ChunkLengthsBalanced(size, numThreads, i, i);
      ChunkBounds(size, numThreads, i);
      var partial := MinElement(data, currentStart, currentEnd);
      results := results + [partial];
      currentStart := currentEnd;
      i := i + 1;
    }

    var overallMin := IntMax;
    for j := 0 to |results|
      invariant FoldMin(overallMin, results[j..]) == FoldMin(IntMax, results)
    {
      assert results[j..] == [results[j]] + results[j + 1..];
      overallMin := Min(overallMin, results[j]);
    }
    if numThreads >= 1 {
      ChunkMinimaCombine(data, numThreads, results);
    }
    return overallMin;
  }
}
