/**
 * The worker counts that `run_custom_parallel_tests` sweeps: 1, then the
 * powers of two up to a ceiling derived from the hardware concurrency hc,
 * and hc itself (kept in ascending order, without duplicates) when hc > 1.
 */
module KValues {

  /** hc * 4 does not overflow a C++ `int`. */
  predicate TimesFourFits(hc: int) {
    -0x2000_0000 <= hc <= 0x1FFF_FFFF
  }

  /**
   * The ceiling `max_k`: max(2, 4 * hc), lowered to 64 when above it. It is
   * always between 2 and 64: 2 when 4 * hc < 2, 64 when 4 * hc > 64, and
   * 4 * hc in between.
   */
  function MaxK(hc: int): (m: int)
    ensures 2 <= m <= 64
    ensures 4 * hc < 2 ==> m == 2
    ensures 2 <= 4 * hc <= 64 ==> m == 4 * hc
    ensures 4 * hc > 64 ==> m == 64
  {
    var atLeastTwo := if 2 < hc * 4 then hc * 4 else 2;
    if atLeastTwo > 64 then 64 else atLeastTwo
  }

  /** 2 to the power e. */
  function Pow2(e: nat): (p: nat)
    ensures p >= 1
  {
    if e == 0 then 1 else 2 * Pow2(e - 1)
  }

  lemma {:induction false} Pow2Increasing(i: nat, j: nat)
    requires i < j
    ensures Pow2(i) < Pow2(j)
    decreases j - i
  {
    if i + 1 < j {
      Pow2Increasing(i, j - 1);
    }
  }

  /** The values p, 2p, 4p, ... that do not exceed maxK: what the doubling loop appends. */
  function PowersFrom(p: nat, maxK: int): (ps: seq<int>)
    requires p >= 1
    ensures ps != [] <==> p <= maxK
    ensures ps != [] ==> ps[0] == p
    ensures forall x :: x in ps ==> p <= x <= maxK
    decreases maxK - p
  {
    if p > maxK then [] else [p] + PowersFrom(2 * p, maxK)
  }

  /** The list before the insertion of hc: [1] followed by the powers of two from 2 up to `max_k`. */
  function BaseCandidates(hc: int): (b: seq<int>)
    ensures |b| >= 2 && b[0] == 1 && b[1] == 2
    ensures forall x :: x in b ==> 1 <= x <= MaxK(hc)
  {
    [1] + PowersFrom(2, MaxK(hc))
  }

  /** Starting from 2^e, the doubling loop appends 2^e, 2^(e+1), ... and stops after the last one within maxK. */
  lemma {:induction false} PowersFromShape(e: nat, maxK: int)
    ensures var ps := PowersFrom(Pow2(e), maxK);
      && (forall i :: 0 <= i < |ps| ==> ps[i] == Pow2(e + i))
      && (ps == [] <==> maxK < Pow2(e))
      && (ps != [] ==> ps[|ps| - 1] <= maxK < 2 * ps[|ps| - 1])
    decreases maxK - Pow2(e)
  {
    if Pow2(e) <= maxK {
      assert Pow2(e + 1) == 2 * Pow2(e);
      PowersFromShape(e + 1, maxK);
      var ps := PowersFrom(Pow2(e), maxK);
      var rest := PowersFrom(Pow2(e + 1), maxK);
      assert ps == [Pow2(e)] + rest;
      forall i | 0 <= i < |ps| ensures ps[i] == Pow2(e + i) {
        if i > 0 {
          assert ps[i] == rest[i - 1];
        }
      }
    }
  }

  /**
   * The list before the insertion is [1, 2, 4, ..., 2^j] with
   * 2^j <= max_k < 2^(j+1); it has at least the two entries 1 and 2.
   */
  lemma BaseCandidatesShape(hc: int)
    ensures var b := BaseCandidates(hc);
      && |b| >= 2
      && (forall i :: 0 <= i < |b| ==> b[i] == Pow2(i))
      && b[|b| - 1] <= MaxK(hc) < 2 * b[|b| - 1]
  {
    var b := BaseCandidates(hc);
    assert Pow2(1) == 2;
    PowersFromShape(1, MaxK(hc));
    var ps := PowersFrom(2, MaxK(hc));
    forall i | 0 <= i < |b| ensures b[i] == Pow2(i) {
      if i > 0 {
        assert b[i] == ps[i - 1];
      }
    }
  }

  ghost predicate StrictlyIncreasing(s: seq<int>) {
    forall i, j :: 0 <= i < j < |s| ==> s[i] < s[j]
  }

  /** The list before the insertion is strictly increasing, and every entry lies between 1 and 64. */
  lemma BaseCandidatesIncreasing(hc: int)
    ensures StrictlyIncreasing(BaseCandidates(hc))
    ensures forall k :: k in BaseCandidates(hc) ==> 1 <= k <= 64
  {
    var b := BaseCandidates(hc);
    BaseCandidatesShape(hc);
    forall i, j | 0 <= i < j < |b| ensures b[i] < b[j] {
      Pow2Increasing(i, j);
    }
    forall k | k in b ensures 1 <= k <= 64 {
      var i :| 0 <= i < |b| && b[i] == k;
      if i < |b| - 1 {
        Pow2Increasing(i, |b| - 1);
      }
    }
  }

  /** The head of a strictly increasing list is below every later element, and the tail holds exactly the other elements. */
  lemma HeadAndTail(s: seq<int>, y: int)
    requires StrictlyIncreasing(s)
    requires s != []
    ensures y in s ==> s[0] <= y
    ensures y in s[1..] <==> y in s && y != s[0]
  {
    if y in s {
      var i :| 0 <= i < |s| && s[i] == y;
      if i > 0 {
        assert s[1..][i - 1] == y;
      }
    }
    if y in s[1..] {
      var i :| 0 <= i < |s| - 1 && s[1..][i] == y;
      assert s[i + 1] == y;
    }
  }

  /** Putting a value below every element in front of a strictly increasing list keeps it strictly increasing. */
  lemma PrependIncreasing(h: int, t: seq<int>)
    requires StrictlyIncreasing(t)
    requires forall y :: y in t ==> h < y
    ensures StrictlyIncreasing([h] + t)
  {
    var r := [h] + t;
    forall i, j | 0 <= i < j < |r| ensures r[i] < r[j] {
      assert r[j] == t[j - 1];
      if i > 0 {
        assert r[i] == t[i - 1];
      } else {
        assert t[j - 1] in t;
      }
    }
  }

  /** Puts x into its place in a strictly increasing list, unless it is there already. */
  function InsertUnique(s: seq<int>, x: int): (r: seq<int>)
    requires StrictlyIncreasing(s)
    ensures StrictlyIncreasing(r)
    ensures forall y :: y in r <==> y in s || y == x
  {
    if s == [] then [x]
    else if x < s[0] then
      assert forall y :: y in s ==> x < y by {
        forall y | y in s ensures x < y {
          HeadAndTail(s, y);
        }
      }
      PrependIncreasing(x, s);
      [x] + s
    else if x == s[0] then s
    else
      var tail := InsertUnique(s[1..], x);
      assert forall y :: (y in tail ==> s[0] < y) && (y in s <==> y == s[0] || y in s[1..]) by {
        forall y ensures (y in tail ==> s[0] < y) && (y in s <==> y == s[0] || y in s[1..]) {
          HeadAndTail(s, y);
        }
      }
      PrependIncreasing(s[0], tail);
      [s[0]] + tail
  }

  /**
   * `std::sort` followed by `std::unique` and `erase`: the elements of s in
   * ascending order, each once.
   */
  function SortUnique(s: seq<int>): (r: seq<int>)
    ensures StrictlyIncreasing(r)
    ensures forall y :: y in r <==> y in s
  {
    if s == [] then []
    else
      var front := s[..|s| - 1];
      assert forall y :: y in s <==> y in front || y == s[|s| - 1];
      InsertUnique(SortUnique(front), s[|s| - 1])
  }

  /**
   * A strictly increasing list is determined by its elements, so every
   * sort-then-deduplicate of the same values yields SortUnique's result.
   */
  lemma {:induction false} StrictlyIncreasingUnique(s: seq<int>, t: seq<int>)
    requires StrictlyIncreasing(s) && StrictlyIncreasing(t)
    requires forall y :: y in s <==> y in t
    ensures s == t
  {
    if s != [] || t != [] {
      assert s != [] ==> s[0] in s;
      assert t != [] ==> t[0] in t;
      HeadAndTail(s, t[0]);
      HeadAndTail(t, s[0]);
      assert s[0] == t[0];
      forall y ensures y in s[1..] <==> y in t[1..] {
        HeadAndTail(s, y);
        HeadAndTail(t, y);
      }
      StrictlyIncreasingUnique(s[1..], t[1..]);
      assert s == [s[0]] + s[1..];
      assert t == [t[0]] + t[1..];
    }
  }

  /**
   * The K list that is swept for hardware concurrency hc: its values are
   * those of the base list, plus hc when hc > 1.
   */
  function KCandidates(hc: int): (ks: seq<int>)
    ensures forall x :: x in ks <==> x in BaseCandidates(hc) || (hc > 1 && x == hc)
  {
    var base := BaseCandidates(hc);
    if hc > 1 && hc !in base then
      assert forall y :: y in base + [hc] <==> y in base || y == hc;
      SortUnique(base + [hc])
    else base
  }

  /**
   * The swept K list is strictly increasing, starts with 1, holds exactly
   * the base powers of two plus hc when hc > 1, and so contains hc whenever
   * hc > 1; every entry other than hc is at most 64.
   */
  lemma KCandidatesProperties(hc: int)
    ensures var ks := KCandidates(hc);
      && StrictlyIncreasing(ks)
      && |ks| >= 2 && ks[0] == 1
      && (forall x :: x in ks <==> x in BaseCandidates(hc) || (hc > 1 && x == hc))
      && (forall k :: k in ks ==> 1 <= k && (k <= 64 || k == hc))
  {
    var ks := KCandidates(hc);
    var base := BaseCandidates(hc);
    BaseCandidatesShape(hc);
    BaseCandidatesIncreasing(hc);
    if hc > 1 && hc !in base {
      assert forall y :: y in base + [hc] <==> y in base || y == hc;
      assert 1 in ks && base[1] in ks;
      // ks[0] is one of the values, all of which are at least 1, and no value precedes 1
      var j :| 0 <= j < |ks| && ks[j] == 1;
      assert ks[0] in ks;
    }
  }

  /** A strictly increasing list with the values of the base list, plus hc when hc > 1, is the swept list. */
  lemma KCandidatesFromValues(hc: int, expected: seq<int>)
    requires StrictlyIncreasing(expected)
    requires forall y :: y in expected <==> y in BaseCandidates(hc) || (hc > 1 && y == hc)
    ensures KCandidates(hc) == expected
  {
    KCandidatesProperties(hc);
    StrictlyIncreasingUnique(KCandidates(hc), expected);
  }

  /** hc = 8 gives [1, 2, 4, 8, 16, 32]; hc = 6 gives [1, 2, 4, 6, 8, 16]; hc = 0 gives [1, 2]. */
  lemma KCandidatesExamples()
    ensures KCandidates(8) == [1, 2, 4, 8, 16, 32]
    ensures KCandidates(6) == [1, 2, 4, 6, 8, 16]
    ensures KCandidates(0) == [1, 2]
  {
    assert BaseCandidates(8) == [1, 2, 4, 8, 16, 32];
    assert BaseCandidates(6) == [1, 2, 4, 8, 16];
    assert BaseCandidates(0) == [1, 2];
    KCandidatesFromValues(6, [1, 2, 4, 6, 8, 16]);
  }

  /**
   * hc = 17: 4 * hc = 68 is capped at 64, so the powers run up to 64 and 17
   * is inserted between 16 and 32.
   */
  lemma KCandidatesCappedExample()
    ensures MaxK(17) == 64
    ensures KCandidates(17) == [1, 2, 4, 8, 16, 17, 32, 64]
  {
    assert PowersFrom(64, 64) == [64];
    assert PowersFrom(32, 64) == [32, 64];
    assert PowersFrom(16, 64) == [16, 32, 64];
    assert PowersFrom(8, 64) == [8, 16, 32, 64];
    assert PowersFrom(4, 64) == [4, 8, 16, 32, 64];
    assert BaseCandidates(17) == [1, 2, 4, 8, 16, 32, 64];
    KCandidatesFromValues(17, [1, 2, 4, 8, 16, 17, 32, 64]);
  }

  /**
   * The K-list construction of `run_custom_parallel_tests`: compute `max_k`,
   * push 1 and then the doubling powers of two, and when hc > 1 is absent
   * append it, sort and deduplicate.
   */
  method GenerateKValues(hc: int) returns (ks: seq<int>)
    requires TimesFourFits(hc)
    ensures ks == KCandidates(hc)
    ensures StrictlyIncreasing(ks) && ks[0] == 1
    ensures forall x :: x in ks <==> x in BaseCandidates(hc) || (hc > 1 && x == hc)
  {
    var maxK := if 2 < hc * 4 then hc * 4 else 2;
    if maxK > 64 {
      maxK := 64;
    }
    ks := [1];
    var kPow2 := 2;
    while kPow2 <= maxK
      invariant kPow2 >= 2
      invariant ks + PowersFrom(kPow2, maxK) == BaseCandidates(hc)
      decreases maxK - kPow2
    {
      assert PowersFrom(kPow2, maxK) == [kPow2] + PowersFrom(2 * kPow2, maxK);
      ks := ks + [kPow2];
      kPow2 := kPow2 * 2;
    }
    assert ks == BaseCandidates(hc);
    var concurrencyPresent := hc in ks;
    if hc > 1 && !concurrencyPresent {
      ks := SortUnique(ks + [hc]);
    }
    KCandidatesProperties(hc);
  }
}
