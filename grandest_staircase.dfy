/**
 * The Grandest Staircase of Them All: the number of staircases that use
 * exactly n bricks, where a staircase is at least two steps of strictly
 * increasing heights. This is the number of partitions of n into distinct
 * parts, less the single-part partition {n}, computed by a memoised
 * recurrence over (smallest allowed height, bricks remaining).
 */
module GrandestStaircase {
  import opened Common

  /**
   * The recurrence: with `remaining` bricks and every step at least `height`
   * tall, either a step of exactly `height` is used or it is not.
   */
  function Staircases(height: int, remaining: int): (count: int)
    requires height >= 1
    ensures count >= 0
    decreases if remaining >= height then remaining - height + 1 else 0
  {
    if remaining == 0 then 1
    else if remaining < height then 0
    else Staircases(height + 1, remaining - height) + Staircases(height + 1, remaining)
  }

  /**
   * The partitions of `remaining` into distinct parts of at least `height`,
   * each listed smallest part first: those that use `height`, then the rest.
   */
  function Partitions(height: int, remaining: int): seq<seq<int>>
    requires height >= 1
    decreases if remaining >= height then remaining - height + 1 else 0
  {
    if remaining == 0 then [[]]
    else if remaining < height then []
    else Prefixed(height, Partitions(height + 1, remaining - height)) + Partitions(height + 1, remaining)
  }

  /** `p` is a staircase of `total` bricks with every step at least `height`. */
  ghost predicate IsPartition(p: seq<int>, height: int, total: int)
  {
    Increasing(p) && (forall i :: 0 <= i < |p| ==> p[i] >= height) && Sum(p) == total
  }

  /** The recurrence counts the listed partitions. */
  lemma {:induction false} StaircasesCountPartitions(height: int, remaining: int)
    requires height >= 1
    ensures |Partitions(height, remaining)| == Staircases(height, remaining)
    decreases if remaining >= height then remaining - height + 1 else 0
  {
    if remaining != 0 && remaining >= height {
      StaircasesCountPartitions(height + 1, remaining - height);
      StaircasesCountPartitions(height + 1, remaining);
    }
  }

  /** A step of `height` below a staircase whose steps are all taller. */
  lemma PrefixPartition(height: int, remaining: int, tail: seq<int>)
    requires IsPartition(tail, height + 1, remaining - height)
    ensures IsPartition([height] + tail, height, remaining)
  {
    var p := [height] + tail;
    SumCons(height, tail);
    forall i, j | 0 <= i < j < |p| ensures p[i] < p[j] {
      if i > 0 {
        assert p[i] == tail[i - 1] && p[j] == tail[j - 1];
      } else {
        assert p[j] == tail[j - 1];
      }
    }
  }

  /** Every listed entry is a partition into distinct parts of at least `height`. */
  lemma {:induction false} PartitionsSound(height: int, remaining: int)
    requires height >= 1
    ensures forall p :: p in Partitions(height, remaining) ==> IsPartition(p, height, remaining)
    decreases if remaining >= height then remaining - height + 1 else 0
  {
    if remaining != 0 && remaining >= height {
      PartitionsSound(height + 1, remaining - height);
      PartitionsSound(height + 1, remaining);
      var tails := Partitions(height + 1, remaining - height);
      forall p | p in Prefixed(height, tails) ensures IsPartition(p, height, remaining) {
        var t :| 0 <= t < |tails| && p == [height] + tails[t];
        assert tails[t] in tails;
        PrefixPartition(height, remaining, tails[t]);
      }
      forall p | p in Partitions(height + 1, remaining) ensures IsPartition(p, height, remaining) {
      }
    }
  }

  /** Splitting off the smallest step of a staircase. */
  lemma SplitPartition(p: seq<int>, height: int, total: int)
    requires height >= 1 && IsPartition(p, height, total) && p != []
    ensures total >= p[0] >= height
    ensures IsPartition(p[1..], p[0] + 1, total - p[0])
  {
    var rest := p[1..];
    assert p == [p[0]] + rest;
    SumCons(p[0], rest);
    SumNonNegative(rest);
  }

  /** Every partition into distinct parts of at least `height` is listed. */
  lemma {:induction false} PartitionsComplete(height: int, remaining: int, p: seq<int>)
    requires height >= 1 && IsPartition(p, height, remaining)
    ensures p in Partitions(height, remaining)
    decreases if remaining >= height then remaining - height + 1 else 0
  {
    if p == [] {
      assert remaining == 0;
    } else {
      SplitPartition(p, height, remaining);
      if p[0] == height {
        var tails := Partitions(height + 1, remaining - height);
        PartitionsComplete(height + 1, remaining - height, p[1..]);
        var t :| 0 <= t < |tails| && tails[t] == p[1..];
        assert Prefixed(height, tails)[t] == p;
      } else {
        assert IsPartition(p, height + 1, remaining);
        PartitionsComplete(height + 1, remaining, p);
      }
    }
  }

  /** No partition is listed twice. */
  lemma {:induction false} PartitionsListedOnce(height: int, remaining: int)
    requires height >= 1
    ensures Distinct(Partitions(height, remaining))
    decreases if remaining >= height then remaining - height + 1 else 0
  {
    if remaining != 0 && remaining >= height {
      PartitionsListedOnce(height + 1, remaining - height);
      PartitionsListedOnce(height + 1, remaining);
      PartitionsSound(height + 1, remaining);
      var tails := Partitions(height + 1, remaining - height);
      var using := Prefixed(height, tails);
      var without := Partitions(height + 1, remaining);
      var all := using + without;
      forall i, j | 0 <= i < j < |all| ensures all[i] != all[j] {
        if j < |using| {
          assert all[i][1..] == tails[i] && all[j][1..] == tails[j];
        } else if i < |using| {
          var q := without[j - |using|];
          assert q in without;
          if q != [] {
            assert q[0] >= height + 1 && all[i][0] == height;
          }
        }
      }
    }
  }

  /** The cache holds -1 where nothing has been stored and the recurrence's value elsewhere. */
  ghost predicate CacheFaithful(cache: array2<int>)
    reads cache
  {
    forall i, j :: 0 <= i < cache.Length0 && 0 <= j < cache.Length1 ==>
      cache[i, j] == -1 || (i >= 1 && cache[i, j] == Staircases(i, j))
  }

  /** The memoised recurrence; `cache` is (n + 2) by (n + 2). */
  method CalcNumStaircases(cache: array2<int>, n: int, height: int, remaining: int) returns (numStaircases: int)
    requires cache.Length0 == n + 2 && cache.Length1 == n + 2
    requires 1 <= height <= n + 1 && 0 <= remaining <= n
    requires CacheFaithful(cache)
    modifies cache
    ensures CacheFaithful(cache)
    ensures numStaircases == Staircases(height, remaining)
    decreases if remaining >= height then remaining - height + 1 else 0
  {
    if cache[height, remaining] != -1 {
      return cache[height, remaining];
    }
    if remaining == 0 {
      return 1;
    }
    if remaining < height {
      return 0;
    }
    var using := CalcNumStaircases(cache, n, height + 1, remaining - height);
    var without := CalcNumStaircases(cache, n, height + 1, remaining);
    numStaircases := using + without;
    cache[height, remaining] := numStaircases;
  }

  /** Partitions of n into distinct parts, less the one-step staircase. */
  method CalcNumStaircasesMemoised(n: int) returns (count: int)
    requires n >= 0
    ensures count == Staircases(1, n) - 1
    ensures count + 1 == |Partitions(1, n)|
  {
    var cache := new int[n + 2, n + 2]((_, _) => -1);
    var total := CalcNumStaircases(cache, n, 1, n);
    StaircasesCountPartitions(1, n);
    count := total - 1;
  }

  /** The one-step staircase {n} is among the partitions that the answer leaves out. */
  lemma SingleStepListed(n: int)
    requires n >= 1
    ensures [n] in Partitions(1, n)
  {
    assert Sum([n]) == n by { assert [n][..0] == []; }
    PartitionsComplete(1, n, [n]);
  }

  method Solution(n: int) returns (count: int)
    requires n >= 0
    ensures count + 1 == |Partitions(1, n)|
  {
    count := CalcNumStaircasesMemoised(n);
  }

  /** The worked examples: staircases of 3 to 5 bricks. */
  lemma SmallCounts()
    ensures Staircases(1, 3) - 1 == 1 && Staircases(1, 4) - 1 == 1 && Staircases(1, 5) - 1 == 2
  {
  }
}
