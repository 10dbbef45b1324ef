/**
 * How `custom_parallel_min_element` splits the index range [0, size) among
 * n workers: contiguous chunks of length size / n or size / n + 1, the first
 * size % n chunks taking the extra element.
 */
module Partition {

  /** `chunk_size + (i < remainder ? 1 : 0)`: the length of chunk i. */
  function ChunkLength(size: nat, n: nat, i: nat): (l: nat)
    requires n >= 1
    ensures size / n <= l <= size / n + 1
    ensures n <= size ==> l >= 1
  {
    assert n <= size ==> n * (size / n) + size % n == size;
    size / n + (if i < size % n then 1 else 0)
  }

  /**
   * `current_start` before chunk i: chunk 0 starts at 0, every later chunk
   * where the previous one ended. When no chunk is empty, chunk i starts at
   * index i or later.
   */
  function ChunkStart(size: nat, n: nat, i: nat): (start: nat)
    requires n >= 1
    ensures n <= size ==> i <= start
  {
    if i == 0 then 0 else ChunkStart(size, n, i - 1) + ChunkLength(size, n, i - 1)
  }

  /** The start of chunk i in closed form: i full chunks plus one extra element for each earlier long chunk. */
  lemma {:induction false} ChunkStartClosedForm(size: nat, n: nat, i: nat)
    requires n >= 1
    ensures ChunkStart(size, n, i) == i * (size / n) + (if i < size % n then i else size % n)
  {
    if i > 0 {
      ChunkStartClosedForm(size, n, i - 1);
      OneMoreChunk(i, size / n);
    }
  }

  /** i blocks of q elements are i - 1 blocks and one more. */
  lemma OneMoreChunk(i: nat, q: nat)
    requires i >= 1
    ensures (i - 1) * q + q == i * q
  {
  }

  /** The chunk lengths add up to size: the last chunk ends exactly at the end of the data. */
  lemma LastChunkEndsAtSize(size: nat, n: nat)
    requires n >= 1
    ensures ChunkStart(size, n, n) == size
  {
    ChunkStartClosedForm(size, n, n);
    assert n * (size / n) + size % n == size;
  }

  /**
   * Any two chunk lengths differ by at most one, and chunk i is the longer
   * kind exactly when i < size % n. With n <= size no chunk is empty.
   */
  lemma ChunkLengthsBalanced(size: nat, n: nat, i: nat, j: nat)
    requires 1 <= n
    requires i < n && j < n
    ensures ChunkLength(size, n, i) <= ChunkLength(size, n, j) + 1
    ensures ChunkLength(size, n, i) == size / n + 1 <==> i < size % n
    ensures n <= size ==> ChunkLength(size, n, i) >= 1
  {
    if n <= size {
      assert n * (size / n) + size % n == size;
    }
  }

  /** Chunk starts never move backwards: a later chunk starts no earlier than an earlier one ends. */
  lemma {:induction false} ChunkStartMonotone(size: nat, n: nat, i: nat, j: nat)
    requires n >= 1
    requires i <= j
    ensures ChunkStart(size, n, i) <= ChunkStart(size, n, j)
    decreases j - i
  {
    if i < j {
      ChunkStartMonotone(size, n, i, j - 1);
    }
  }

  /** Chunk j < n lies inside [0, size). */
  lemma ChunkBounds(size: nat, n: nat, j: nat)
    requires n >= 1
    requires j < n
    ensures ChunkStart(size, n, j) <= ChunkStart(size, n, j + 1) <= size
  {
    LastChunkEndsAtSize(size, n);
    ChunkStartMonotone(size, n, j + 1, n);
  }

  /** The elements of chunk j: what worker j scans. */
  function Chunk<T>(data: seq<T>, n: nat, j: nat): seq<T>
    requires 1 <= n
    requires j < n
  {
    ChunkBounds(|data|, n, j);
    data[ChunkStart(|data|, n, j)..ChunkStart(|data|, n, j + 1)]
  }

  /** Every index below size lies in some chunk i < n (the chunks leave no gap). */
  lemma ChunksCover(size: nat, n: nat, x: nat)
    requires n >= 1
    requires x < size
    ensures exists c :: 0 <= c < n && ChunkStart(size, n, c) <= x < ChunkStart(size, n, c + 1)
  {
    LastChunkEndsAtSize(size, n);
    CoveredBelow(size, n, x, n);
  }

  lemma {:induction false} CoveredBelow(size: nat, n: nat, x: nat, k: nat)
    requires n >= 1
    requires x < ChunkStart(size, n, k)
    ensures exists c :: 0 <= c < k && ChunkStart(size, n, c) <= x < ChunkStart(size, n, c + 1)
  {
    assert k != 0;
    if x < ChunkStart(size, n, k - 1) {
      CoveredBelow(size, n, x, k - 1);
    } else {
      assert ChunkStart(size, n, k - 1) <= x < ChunkStart(size, n, k - 1 + 1);
    }
  }

  /** No index lies in two different chunks (the chunks never overlap). */
  lemma ChunksDisjoint(size: nat, n: nat, c: nat, d: nat, x: nat)
    requires n >= 1
    requires ChunkStart(size, n, c) <= x < ChunkStart(size, n, c + 1)
    requires ChunkStart(size, n, d) <= x < ChunkStart(size, n, d + 1)
    ensures c == d
  {
    if c < d {
      ChunkStartMonotone(size, n, c + 1, d);
    } else if d < c {
      ChunkStartMonotone(size, n, d + 1, c);
    }
  }
}
