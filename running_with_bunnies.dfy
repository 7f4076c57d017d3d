/**
 * Running with Bunnies: all-pairs shortest times by Floyd–Warshall, then an
 * exhaustive search over ordered subsets of bunnies, largest subsets first,
 * for a route from the start (node 0) through the chosen bunnies to the
 * bulkhead (the last node) within the time limit.
 */
module RunningWithBunnies {
  import opened Common

  // ---------------------------------------------------------------------
  // Walks and their costs
  // ---------------------------------------------------------------------

  /** `w` is a walk through the nodes of `m`, from `i` to `j`. */
  ghost predicate IsWalk(m: seq<seq<int>>, w: seq<int>, i: int, j: int)
  {
    |w| >= 1 && w[0] == i && w[|w| - 1] == j && InRange(m, w)
  }

  /** Total weight of the consecutive legs of `w` in `m`. */
  ghost function PathCost(m: seq<seq<int>>, w: seq<int>): int
    requires IsSquare(m) && InRange(m, w)
  {
    if |w| <= 1 then 0 else PathCost(m, w[..|w| - 1]) + m[w[|w| - 2]][w[|w| - 1]]
  }

  /** Following `a` and then `b` from the node where `a` ends costs both. */
  lemma {:induction false} PathCostJoin(m: seq<seq<int>>, a: seq<int>, b: seq<int>)
    requires IsSquare(m) && InRange(m, a) && InRange(m, b)
    requires |a| >= 1 && |b| >= 1 && a[|a| - 1] == b[0]
    ensures InRange(m, a + b[1..])
    ensures PathCost(m, a + b[1..]) == PathCost(m, a) + PathCost(m, b)
    decreases |b|
  {
    if |b| == 1 {
      assert a + b[1..] == a;
    } else {
      var b' := b[..|b| - 1];
      PathCostJoin(m, a, b');
      var w := a + b[1..];
      assert w[..|w| - 1] == a + b'[1..];
      assert w[|w| - 2] == b[|b| - 2];
    }
  }

  /** Some walk from `i` to `j` costs exactly `c`. */
  ghost predicate Achieved(m: seq<seq<int>>, i: int, j: int, c: int)
    requires IsSquare(m)
  {
    exists w :: IsWalk(m, w, i, j) && PathCost(m, w) == c
  }

  /** Some closed walk has negative total cost. */
  ghost predicate HasNegativeCycle(m: seq<seq<int>>)
    requires IsSquare(m)
  {
    exists c, w :: IsWalk(m, w, c, c) && PathCost(m, w) < 0
  }

  // ---------------------------------------------------------------------
  // Floyd–Warshall
  // ---------------------------------------------------------------------

  ghost predicate Shaped<T>(d: seq<seq<T>>, n: int)
  {
    |d| == n && forall i :: 0 <= i < |d| ==> |d[i]| == n
  }

  /**
   * What the distances returned by Floyd–Warshall are known to be: no larger
   * than the direct edge, each the cost of an actual walk, and no node on a
   * cycle that pays back time.
   */
  ghost predicate ShortestBounds(graph: seq<seq<int>>, d: seq<seq<int>>)
  {
    IsSquare(graph) && Shaped(d, |graph|)
    && (forall i, j :: 0 <= i < |d| && 0 <= j < |d| ==> d[i][j] <= graph[i][j] && Achieved(graph, i, j, d[i][j]))
    && (forall i :: 0 <= i < |d| ==> d[i][i] >= 0)
  }

  /** Every current distance is paid by the walk recorded beside it. */
  ghost predicate Witnessed(graph: seq<seq<int>>, d: seq<seq<int>>, walks: seq<seq<seq<int>>>)
  {
    IsSquare(graph) && Shaped(d, |graph|) && Shaped(walks, |graph|)
    && forall i, j :: 0 <= i < |d| && 0 <= j < |d| ==>
         IsWalk(graph, walks[i][j], i, j) && PathCost(graph, walks[i][j]) == d[i][j] && d[i][j] <= graph[i][j]
  }

  lemma DirectWalks(graph: seq<seq<int>>)
    requires IsSquare(graph)
    ensures Witnessed(graph, graph, seq(|graph|, i => seq(|graph|, j => [i, j])))
  {
    var walks := seq(|graph|, i => seq(|graph|, j => [i, j]));
    forall i, j | 0 <= i < |graph| && 0 <= j < |graph|
      ensures IsWalk(graph, walks[i][j], i, j) && PathCost(graph, walks[i][j]) == graph[i][j]
    {
      assert walks[i][j][..1] == [i];
    }
  }

  /** Writing a witnessed distance into one cell keeps every distance witnessed. */
  lemma UpdateCell(graph: seq<seq<int>>, d: seq<seq<int>>, walks: seq<seq<seq<int>>>, i: int, j: int, cost: int, w: seq<int>)
    requires Witnessed(graph, d, walks)
    requires 0 <= i < |d| && 0 <= j < |d|
    requires IsWalk(graph, w, i, j) && PathCost(graph, w) == cost && cost <= graph[i][j]
    ensures Witnessed(graph, d[i := d[i][j := cost]], walks[i := walks[i][j := w]])
  {
    var row, walkRow := d[i][j := cost], walks[i][j := w];
    var d', walks' := d[i := row], walks[i := walkRow];
    assert Shaped(d', |graph|) && Shaped(walks', |graph|);
    forall r, c | 0 <= r < |d| && 0 <= c < |d|
      ensures IsWalk(graph, walks'[r][c], r, c) && PathCost(graph, walks'[r][c]) == d'[r][c] && d'[r][c] <= graph[r][c]
    {
      if r != i {
        assert walks'[r] == walks[r] && d'[r] == d[r];
      } else if c != j {
        assert walks'[r][c] == walks[i][c] && d'[r][c] == d[i][c];
      } else {
        assert walks'[r][c] == w && d'[r][c] == cost;
      }
    }
  }

  /** A walk from i to k followed by a walk from k to j is a walk from i to j costing both. */
  lemma Detour(graph: seq<seq<int>>, a: seq<int>, b: seq<int>, i: int, k: int, j: int)
    requires IsSquare(graph) && IsWalk(graph, a, i, k) && IsWalk(graph, b, k, j)
    ensures IsWalk(graph, a + b[1..], i, j)
    ensures PathCost(graph, a + b[1..]) == PathCost(graph, a) + PathCost(graph, b)
  {
    PathCostJoin(graph, a, b);
    var w := a + b[1..];
    if |b| == 1 {
      assert w == a;
    } else {
      assert w[|w| - 1] == b[|b| - 1];
    }
  }

  lemma WitnessedAchieved(graph: seq<seq<int>>, d: seq<seq<int>>, walks: seq<seq<seq<int>>>)
    requires Witnessed(graph, d, walks)
    requires forall i :: 0 <= i < |d| ==> d[i][i] >= 0
    ensures ShortestBounds(graph, d)
  {
    forall i, j | 0 <= i < |d| && 0 <= j < |d|
      ensures Achieved(graph, i, j, d[i][j])
    {
      assert IsWalk(graph, walks[i][j], i, j);
    }
  }

  lemma NegativeDiagonal(graph: seq<seq<int>>, d: seq<seq<int>>, walks: seq<seq<seq<int>>>, i: int)
    requires Witnessed(graph, d, walks)
    requires 0 <= i < |d| && d[i][i] < 0
    ensures HasNegativeCycle(graph)
  {
    assert IsWalk(graph, walks[i][i], i, i);
  }

  /** One row of a Floyd–Warshall round: tries the detour through `k` for every target `j`. */
  method RelaxRow(graph: seq<seq<int>>, d: seq<seq<int>>, ghost walks: seq<seq<seq<int>>>, i: int, k: int)
    returns (distances: seq<seq<int>>, ghost walks': seq<seq<seq<int>>>)
    requires Witnessed(graph, d, walks)
    requires 0 <= i < |d| && 0 <= k < |d|
    ensures Witnessed(graph, distances, walks')
    ensures forall r :: 0 <= r < |d| && r != i ==> distances[r] == d[r]
    ensures forall j :: 0 <= j < |d| ==> distances[i][j] <= d[i][j] && distances[i][j] <= d[i][k] + d[k][j]
  {
    var n := |d|;
    distances, walks' := d, walks;
    var j := 0;
    while j < n
      invariant 0 <= j <= n
      invariant Witnessed(graph, distances, walks')
      invariant forall r :: 0 <= r < n && r != i ==> distances[r] == d[r]
      invariant forall t :: 0 <= t < j ==> distances[i][t] <= d[i][t] && distances[i][t] <= d[i][k] + d[k][t]
      invariant forall t :: j <= t < n ==> distances[i][t] == d[i][t]
      invariant distances[i][k] <= d[i][k]
    {
      distances, walks' := RelaxCell(graph, distances, walks', i, k, j);
      j := j + 1;
    }
  }

  /** One step of the inner loop: the entry (i, j) takes the detour through k when it is shorter. */
  method RelaxCell(graph: seq<seq<int>>, d: seq<seq<int>>, ghost walks: seq<seq<seq<int>>>, i: int, k: int, j: int)
    returns (distances: seq<seq<int>>, ghost walks': seq<seq<seq<int>>>)
    requires Witnessed(graph, d, walks)
    requires 0 <= i < |d| && 0 <= k < |d| && 0 <= j < |d|
    ensures Witnessed(graph, distances, walks')
    ensures forall r :: 0 <= r < |d| && r != i ==> distances[r] == d[r]
    ensures forall t :: 0 <= t < |d| && t != j ==> distances[i][t] == d[i][t]
    ensures distances[i][j] <= d[i][j] && distances[i][j] <= d[i][k] + d[k][j]
  {
    distances, walks' := d, walks;
    var detour := d[i][k] + d[k][j];
    if d[i][j] > detour {
      ghost var w := walks[i][k] + walks[k][j][1..];
      assert IsWalk(graph, walks[i][k], i, k) && IsWalk(graph, walks[k][j], k, j);
      Detour(graph, walks[i][k], walks[k][j], i, k, j);
      UpdateCell(graph, d, walks, i, j, detour, w);
      walks' := walks[i := walks[i][j := w]];
      distances := d[i := d[i][j := detour]];
    }
  }

  /**
   * All-pairs shortest times, relaxing through each intermediate node `k` in
   * turn. Returns None as soon as a diagonal entry turns negative.
   */
  method FloydWarshall(graph: seq<seq<int>>) returns (shortest: Option<seq<seq<int>>>)
    requires IsSquare(graph)
    ensures shortest.None? ==> HasNegativeCycle(graph)
    ensures shortest.Some? ==> ShortestBounds(graph, shortest.value)
  {
    var n := |graph|;
    var distances := graph;
    ghost var walks := seq(n, i => seq(n, j => [i, j]));
    DirectWalks(graph);
    var k := 0;
    while k < n
      invariant 0 <= k <= n
      invariant Witnessed(graph, distances, walks)
      invariant k > 0 ==> forall t :: 0 <= t < n ==> distances[t][t] >= 0
    {
      var i := 0;
      while i < n
        invariant 0 <= i <= n
        invariant Witnessed(graph, distances, walks)
        invariant forall t :: 0 <= t < i ==> distances[t][t] >= 0
      {
        distances, walks := RelaxRow(graph, distances, walks, i, k);
        if distances[i][i] < 0 {
          NegativeDiagonal(graph, distances, walks, i);
          return None;
        }
        i := i + 1;
      }
      k := k + 1;
    }
    WitnessedAchieved(graph, distances, walks);
    return Some(distances);
  }

  // ---------------------------------------------------------------------
  // Routes through bunnies
  // ---------------------------------------------------------------------

  /** The integers `lo`, `lo + 1`, ..., `hi - 1` (Python's `range`). */
  function Range(lo: int, hi: int): (r: seq<int>)
    ensures |r| == if lo <= hi then hi - lo else 0
    ensures forall t :: 0 <= t < |r| ==> r[t] == lo + t
    decreases hi - lo
  {
    if lo >= hi then [] else [lo] + Range(lo + 1, hi)
  }

  lemma RangeMembers(lo: int, hi: int)
    ensures Distinct(Range(lo, hi))
    ensures forall v :: v in Range(lo, hi) <==> lo <= v < hi
  {
    var r := Range(lo, hi);
    forall v | lo <= v < hi ensures v in r {
      assert r[v - lo] == v;
    }
  }

  /**
   * `p` is an ordered choice of at least one distinct bunny; bunnies are the
   * nodes 1..numBunnies of the time matrix.
   */
  ghost predicate IsRoute(p: seq<int>, numBunnies: int)
  {
    |p| >= 1 && Distinct(p) && forall t :: 0 <= t < |p| ==> 1 <= p[t] <= numBunnies
  }

  /** Time to go from the start (node 0) through `p` in order to the bulkhead (the last node). */
  ghost function RouteCost(d: seq<seq<int>>, p: seq<int>): int
    requires IsSquare(d) && IsRoute(p, |d| - 2)
  {
    RouteInRange(d, p);
    PathCost(d, [0] + p + [|d| - 1])
  }

  lemma RouteInRange(d: seq<seq<int>>, p: seq<int>)
    requires IsRoute(p, |d| - 2)
    ensures InRange(d, [0] + p + [|d| - 1])
  {
    var w := [0] + p + [|d| - 1];
    assert 1 <= p[0] <= |d| - 2;
    forall t | 0 <= t < |w| ensures 0 <= w[t] < |d| {
      if t == 0 {
        assert w[t] == 0;
      } else if t == |w| - 1 {
        assert w[t] == |d| - 1;
      } else {
        assert w[t] == p[t - 1];
      }
    }
  }

  /** Accumulates the elapsed time of the route start -> bunnies -> bulkhead. */
  method RouteTime(d: seq<seq<int>>, bunnies: seq<int>) returns (timeElapsed: int)
    requires IsSquare(d) && IsRoute(bunnies, |d| - 2)
    ensures timeElapsed == RouteCost(d, bunnies)
  {
    var start := 0;
    var bulkhead := |d| - 1;
    timeElapsed := 0;
    var i := 0;
    while i < |bunnies|
      invariant 0 <= i <= |bunnies|
      invariant InRange(d, [start] + bunnies[..i])
      invariant timeElapsed == PathCost(d, [start] + bunnies[..i])
    {
      var w := [start] + bunnies[..i + 1];
      assert w[..|w| - 1] == [start] + bunnies[..i];
      if i == 0 {
        timeElapsed := timeElapsed + d[start][bunnies[i]];
      } else {
        timeElapsed := timeElapsed + d[bunnies[i - 1]][bunnies[i]];
      }
      i := i + 1;
    }
    var w := [start] + bunnies + [bulkhead];
    assert w[..|w| - 1] == [start] + bunnies[..|bunnies|];
    timeElapsed := timeElapsed + d[bunnies[|bunnies| - 1]][bulkhead];
  }

  // ---------------------------------------------------------------------
  // Ordered selections, in the order itertools.permutations yields them
  // ---------------------------------------------------------------------

  function Remove(pool: seq<int>, x: int): seq<int>
    requires 0 <= x < |pool|
  {
    pool[..x] + pool[x + 1..]
  }

  /**
   * The length-`r` arrangements of `pool`: for each position of `pool` in
   * turn, its element followed by the arrangements of the rest. This is the
   * lexicographic order by position that itertools.permutations produces.
   */
  function Arrangements(pool: seq<int>, r: nat): seq<seq<int>>
    decreases r, 1, 0
  {
    if r == 0 then [[]] else ArrangementsFrom(pool, r, 0)
  }

  /** The arrangements of `pool` whose first element sits at position `x` or later. */
  function ArrangementsFrom(pool: seq<int>, r: nat, x: nat): seq<seq<int>>
    requires r > 0 && x <= |pool|
    decreases r, 0, |pool| - x
  {
    if x == |pool| then []
    else Prefixed(pool[x], Arrangements(Remove(pool, x), r - 1)) + ArrangementsFrom(pool, r, x + 1)
  }

  lemma RemoveKeeps(pool: seq<int>, x: int)
    requires Distinct(pool) && 0 <= x < |pool|
    ensures Distinct(Remove(pool, x))
    ensures forall v :: v in Remove(pool, x) <==> v in pool && v != pool[x]
  {
    var rest := Remove(pool, x);
    assert forall t :: 0 <= t < |rest| ==> rest[t] == if t < x then pool[t] else pool[t + 1];
    forall v | v in pool && v != pool[x] ensures v in rest {
      var t :| 0 <= t < |pool| && pool[t] == v;
      if t < x { assert rest[t] == v; } else { assert rest[t - 1] == v; }
    }
  }

  /** Every arrangement is `r` distinct elements of the pool. */
  lemma {:induction false} ArrangementsSound(pool: seq<int>, r: nat, a: seq<int>)
    requires Distinct(pool) && a in Arrangements(pool, r)
    ensures |a| == r && Distinct(a) && forall t :: 0 <= t < |a| ==> a[t] in pool
    decreases r, 1, 0
  {
    if r > 0 {
      ArrangementsFromSound(pool, r, 0, a);
    }
  }

  lemma {:induction false} ArrangementsFromSound(pool: seq<int>, r: nat, x: nat, a: seq<int>)
    requires r > 0 && x <= |pool| && Distinct(pool) && a in ArrangementsFrom(pool, r, x)
    ensures |a| == r && Distinct(a) && forall t :: 0 <= t < |a| ==> a[t] in pool
    decreases r, 0, |pool| - x
  {
    if x < |pool| {
      var rest := Remove(pool, x);
      var tails := Arrangements(rest, r - 1);
      var heads := Prefixed(pool[x], tails);
      if a in heads {
        var t :| 0 <= t < |heads| && heads[t] == a;
        RemoveKeeps(pool, x);
        ArrangementsSound(rest, r - 1, tails[t]);
        assert a == [pool[x]] + tails[t];
        forall u | 0 <= u < |a| ensures a[u] in pool {
          if u > 0 { assert a[u] == tails[t][u - 1]; }
        }
      } else {
        ArrangementsFromSound(pool, r, x + 1, a);
      }
    }
  }

  /** There are no arrangements longer than the pool. */
  lemma {:induction false} ArrangementsTooLong(pool: seq<int>, r: nat)
    requires r > |pool|
    ensures Arrangements(pool, r) == []
    decreases r, 1, 0
  {
    ArrangementsFromTooLong(pool, r, 0);
  }

  lemma {:induction false} ArrangementsFromTooLong(pool: seq<int>, r: nat, x: nat)
    requires r > |pool| && x <= |pool|
    ensures ArrangementsFrom(pool, r, x) == []
    decreases r, 0, |pool| - x
  {
    if x < |pool| {
      ArrangementsTooLong(Remove(pool, x), r - 1);
      ArrangementsFromTooLong(pool, r, x + 1);
    }
  }

  /** A list of distinct values drawn from the pool is no longer than the pool. */
  lemma DistinctFromPool(pool: seq<int>, a: seq<int>)
    requires Distinct(pool) && Distinct(a) && forall t :: 0 <= t < |a| ==> a[t] in pool
    ensures |a| <= |pool|
  {
    ArrangementsComplete(pool, a);
    if |a| > |pool| {
      ArrangementsTooLong(pool, |a|);
    }
  }

  /** Every choice of distinct elements of the pool appears among the arrangements of its length. */
  lemma {:induction false} ArrangementsComplete(pool: seq<int>, a: seq<int>)
    requires Distinct(pool) && Distinct(a) && forall t :: 0 <= t < |a| ==> a[t] in pool
    ensures a in Arrangements(pool, |a|)
    decreases |a|
  {
    if |a| > 0 {
      var x :| 0 <= x < |pool| && pool[x] == a[0];
      var rest := Remove(pool, x);
      RemoveKeeps(pool, x);
      var tail := a[1..];
      forall t | 0 <= t < |tail| ensures tail[t] in rest {
        assert tail[t] == a[t + 1] && a[t + 1] != a[0];
      }
      ArrangementsComplete(rest, tail);
      var tails := Arrangements(rest, |a| - 1);
      var t :| 0 <= t < |tails| && tails[t] == tail;
      assert a == [pool[x]] + tail;
      assert Prefixed(pool[x], tails)[t] == a;
      ArrangementsFromReaches(pool, |a|, 0, x, a);
    }
  }

  lemma {:induction false} ArrangementsFromReaches(pool: seq<int>, r: nat, y: nat, x: nat, a: seq<int>)
    requires r > 0 && y <= x < |pool|
    requires a in Prefixed(pool[x], Arrangements(Remove(pool, x), r - 1))
    ensures a in ArrangementsFrom(pool, r, y)
    decreases x - y
  {
    if y < x {
      ArrangementsFromReaches(pool, r, y + 1, x, a);
    }
  }

  // ---------------------------------------------------------------------
  // Sorting the rescued ids
  // ---------------------------------------------------------------------

  function Insert(x: int, s: seq<int>): (r: seq<int>)
    ensures multiset(r) == multiset(s) + multiset{x}
  {
    if s == [] || x < s[0] then [x] + s
    else
      assert s == [s[0]] + s[1..];
      [s[0]] + Insert(x, s[1..])
  }

  /** Insertion sort (Python's `sorted` on a list of integers). */
  function Sort(s: seq<int>): (r: seq<int>)
    ensures multiset(r) == multiset(s)
  {
    if s == [] then []
    else
      assert s == [s[0]] + s[1..];
      Insert(s[0], Sort(s[1..]))
  }

  lemma {:induction false} InsertIncreasing(x: int, s: seq<int>)
    requires Increasing(s) && x !in s
    ensures Increasing(Insert(x, s))
  {
    if s != [] && x >= s[0] {
      var r' := Insert(x, s[1..]);
      InsertIncreasing(x, s[1..]);
      forall t | 0 <= t < |r'| ensures s[0] < r'[t] {
        assert r'[t] in multiset(s[1..]) + multiset{x};
      }
    }
  }

  /** Sorting distinct values gives a strictly increasing list. */
  lemma {:induction false} SortIncreasing(s: seq<int>)
    requires Distinct(s)
    ensures Increasing(Sort(s))
  {
    if s != [] {
      var rest := Sort(s[1..]);
      SortIncreasing(s[1..]);
      forall t | 0 <= t < |s| - 1 ensures s[1..][t] != s[0] {
        assert s[1..][t] == s[t + 1];
      }
      assert s[0] !in multiset(rest);
      InsertIncreasing(s[0], rest);
    }
  }

  /** Bunny ids, which are their node numbers less one. */
  function Shifted(p: seq<int>): (r: seq<int>)
    ensures |r| == |p| && forall t :: 0 <= t < |r| ==> r[t] == p[t] - 1
  {
    seq(|p|, t requires 0 <= t < |p| => p[t] - 1)
  }

  // ---------------------------------------------------------------------
  // The search
  // ---------------------------------------------------------------------

  /**
   * `saved` is a set of bunny ids that some route within `limit` picks up,
   * listed in increasing order, and no route through more bunnies fits in
   * `limit`.
   */
  ghost predicate Rescued(d: seq<seq<int>>, numBunnies: int, limit: int, saved: seq<int>)
  {
    IsSquare(d) && numBunnies == |d| - 2
    && Increasing(saved)
    && (forall t :: 0 <= t < |saved| ==> 0 <= saved[t] < numBunnies)
    && (saved != [] ==> exists p :: IsRoute(p, numBunnies) && RouteCost(d, p) <= limit
                                    && multiset(saved) == multiset(Shifted(p)))
    && (forall q :: IsRoute(q, numBunnies) && |q| > |saved| ==> RouteCost(d, q) > limit)
  }

  /**
   * The ids (0-based) of the most bunnies that can be picked up on the way
   * to the bulkhead within `timesLimit`; all of them when the times admit a
   * cycle that gains time.
   */
  method Solution(times: seq<seq<int>>, timesLimit: int)
    returns (saved: seq<int>, ghost shortest: Option<seq<seq<int>>>)
    requires IsSquare(times)
    ensures shortest.None? ==> HasNegativeCycle(times)
    ensures shortest.Some? ==> ShortestBounds(times, shortest.value)
    ensures shortest.None? || times == [] ==> saved == Range(0, |times| - 2)
    ensures shortest.Some? && times != [] ==> Rescued(shortest.value, |times| - 2, timesLimit, saved)
  {
    var shortestTimes := FloydWarshall(times);
    shortest := shortestTimes;
    var numBunnies := |times| - 2;
    if shortestTimes.None? || shortestTimes.value == [] {
      saved := Range(0, numBunnies);
      return;
    }
    var d := shortestTimes.value;
    var pool := Range(1, numBunnies + 1);
    RangeMembers(1, numBunnies + 1);
    var subsetSize := numBunnies;
    forall q | IsRoute(q, numBunnies) ensures |q| <= numBunnies {
      DistinctFromPool(pool, q);
    }
    while subsetSize >= 1
      invariant subsetSize <= numBunnies
      invariant forall q :: IsRoute(q, numBunnies) && |q| > subsetSize ==> RouteCost(d, q) > timesLimit
    {
      var found := SearchArrangements(d, numBunnies, timesLimit, pool, subsetSize);
      if found.Some? {
        saved := Sort(Shifted(found.value));
        FoundRoute(d, numBunnies, timesLimit, found.value, saved);
        return;
      }
      subsetSize := subsetSize - 1;
    }
    saved := [];
  }

  /**
   * The first arrangement of `subsetSize` bunnies, in itertools order, whose
   * route fits in `timesLimit`; None when no such route exists.
   */
  method SearchArrangements(d: seq<seq<int>>, numBunnies: int, timesLimit: int, pool: seq<int>, subsetSize: nat)
    returns (found: Option<seq<int>>)
    requires IsSquare(d) && numBunnies == |d| - 2 && subsetSize >= 1
    requires pool == Range(1, numBunnies + 1)
    ensures found.Some? ==> IsRoute(found.value, numBunnies) && |found.value| == subsetSize
                            && RouteCost(d, found.value) <= timesLimit
    ensures found.None? ==> forall q :: IsRoute(q, numBunnies) && |q| == subsetSize ==> RouteCost(d, q) > timesLimit
  {
    RangeMembers(1, numBunnies + 1);
    var candidates := Arrangements(pool, subsetSize);
    var c := 0;
    while c < |candidates|
      invariant 0 <= c <= |candidates|
      invariant forall t :: 0 <= t < c ==> IsRoute(candidates[t], numBunnies) && RouteCost(d, candidates[t]) > timesLimit
    {
      var bunnies := candidates[c];
      ArrangementsSound(pool, subsetSize, bunnies);
      var timeElapsed := RouteTime(d, bunnies);
      if timeElapsed <= timesLimit {
        return Some(bunnies);
      }
      c := c + 1;
    }
    forall q | IsRoute(q, numBunnies) && |q| == subsetSize
      ensures RouteCost(d, q) > timesLimit
    {
      ArrangementsComplete(pool, q);
    }
    return None;
  }

  lemma FoundRoute(d: seq<seq<int>>, numBunnies: int, limit: int, p: seq<int>, saved: seq<int>)
    requires IsSquare(d) && numBunnies == |d| - 2
    requires IsRoute(p, numBunnies) && RouteCost(d, p) <= limit
    requires forall q :: IsRoute(q, numBunnies) && |q| > |p| ==> RouteCost(d, q) > limit
    requires saved == Sort(Shifted(p))
    ensures Rescued(d, numBunnies, limit, saved)
  {
    var ids := Shifted(p);
    ShiftedDistinct(p);
    SortIncreasing(ids);
    SavedIds(p, numBunnies, saved);
    assert IsRoute(p, numBunnies) && RouteCost(d, p) <= limit && multiset(saved) == multiset(Shifted(p));
  }

  lemma ShiftedDistinct(p: seq<int>)
    requires Distinct(p)
    ensures Distinct(Shifted(p))
  {
  }

  /** Sorting the 0-based ids of a route keeps their number and their range. */
  lemma SavedIds(p: seq<int>, numBunnies: int, saved: seq<int>)
    requires IsRoute(p, numBunnies) && saved == Sort(Shifted(p))
    ensures multiset(saved) == multiset(Shifted(p)) && |saved| == |p|
    ensures forall t :: 0 <= t < |saved| ==> 0 <= saved[t] < numBunnies
  {
    var ids := Shifted(p);
    assert |saved| == |multiset(saved)| == |multiset(ids)| == |p|;
    forall t | 0 <= t < |saved| ensures 0 <= saved[t] < numBunnies {
      assert saved[t] in multiset(ids);
    }
  }
}
