/**
 * Escape pods: maximum flow from several entrances to several exits.
 *
 * The corridors form a capacity matrix. A supersource and a supersink turn the
 * problem into a single-source/single-sink one, and Edmonds–Karp then pushes
 * flow along breadth-first augmenting paths over a residual matrix that it
 * updates in place.
 */
module EscapePods {
  import opened Common
  import opened Cuts

  // ---------------------------------------------------------------------------
  // Matrices as values

  ghost predicate NonNegative(m: seq<seq<int>>)
  {
    forall i, j :: 0 <= i < |m| && 0 <= j < |m[i]| ==> m[i][j] >= 0
  }

  /** The residual matrix held in the array, as a value. */
  ghost function Matrix(g: array2<int>): (m: seq<seq<int>>)
    reads g
    ensures |m| == g.Length0
    ensures forall i :: 0 <= i < |m| ==> |m[i]| == g.Length1
    ensures forall i, j :: 0 <= i < g.Length0 && 0 <= j < g.Length1 ==> m[i][j] == g[i, j]
  {
    seq(g.Length0, i requires 0 <= i < g.Length0 reads g =>
      seq(g.Length1, j requires 0 <= j < g.Length1 reads g => g[i, j]))
  }

  lemma MatrixIs(g: array2<int>, m: seq<seq<int>>)
    requires |m| == g.Length0
    requires forall i :: 0 <= i < |m| ==> |m[i]| == g.Length1
    requires forall i, j :: 0 <= i < g.Length0 && 0 <= j < g.Length1 ==> m[i][j] == g[i, j]
    ensures Matrix(g) == m
  {
    var a := Matrix(g);
    forall i | 0 <= i < |m| ensures a[i] == m[i] { }
  }

  // ---------------------------------------------------------------------------
  // Paths in the residual graph

  /** `p` visits nodes of `m` and every step follows an edge with positive residual. */
  ghost predicate IsResidualPath(m: seq<seq<int>>, p: seq<int>)
  {
    IsSquare(m) && |p| >= 1
    && (forall i :: 0 <= i < |p| ==> 0 <= p[i] < |m|)
    && forall i :: 0 <= i < |p| - 1 ==> m[p[i]][p[i + 1]] > 0
  }

  ghost predicate Reachable(m: seq<seq<int>>, s: int, t: int)
  {
    exists p :: IsResidualPath(m, p) && p[0] == s && p[|p| - 1] == t
  }

  /** No edge with positive residual leaves the node set `S`. */
  ghost predicate Closed(m: seq<seq<int>>, S: set<int>)
  {
    IsSquare(m)
    && (forall u :: u in S ==> 0 <= u < |m|)
    && forall u, v :: u in S && 0 <= v < |m| && m[u][v] > 0 ==> v in S
  }

  lemma {:induction false} ClosedKeepsPathInside(m: seq<seq<int>>, S: set<int>, p: seq<int>, k: int)
    requires Closed(m, S) && IsResidualPath(m, p) && p[0] in S
    requires 0 <= k < |p|
    ensures p[k] in S
  {
    if k > 0 {
      ClosedKeepsPathInside(m, S, p, k - 1);
    }
  }

  /** A node set closed under residual edges holds everything reachable from it. */
  lemma ClosedSetHoldsReachable(m: seq<seq<int>>, S: set<int>, s: int, t: int)
    requires Closed(m, S) && s in S && Reachable(m, s, t)
    ensures t in S
  {
    var p :| IsResidualPath(m, p) && p[0] == s && p[|p| - 1] == t;
    ClosedKeepsPathInside(m, S, p, |p| - 1);
  }

  // ---------------------------------------------------------------------------
  // Predecessor trees built by the breadth-first search

  /**
   * `prev` records, for every node reached other than `source`, the node it
   * was discovered from; `order` is the discovery stamp, strictly larger than
   * the stamp of the predecessor. This is what makes the walk back to the
   * source finite and free of repeated nodes.
   */
  ghost predicate PredecessorTree(prev: seq<int>, order: seq<nat>, reached: set<int>, source: int)
  {
    |order| == |prev| && 0 <= source < |prev| && source in reached
    && (forall v :: v in reached ==> 0 <= v < |prev|)
    && forall v :: v in reached && v != source ==> prev[v] in reached && order[prev[v]] < order[v]
  }

  /** The nodes met when following `prev` from `v` back to `source`. */
  ghost function Walk(prev: seq<int>, order: seq<nat>, reached: set<int>, source: int, v: int): (w: seq<int>)
    requires PredecessorTree(prev, order, reached, source) && v in reached
    ensures |w| >= 1 && w[0] == v && w[|w| - 1] == source
    ensures forall i :: 0 <= i < |w| ==> w[i] in reached
    ensures forall i :: 0 <= i < |w| - 1 ==> w[i] != source && w[i + 1] == prev[w[i]]
    ensures forall i, j :: 0 <= i < j < |w| ==> order[w[j]] < order[w[i]]
    decreases order[v]
  {
    if v == source then [v] else [v] + Walk(prev, order, reached, source, prev[v])
  }

  /** Every node of a predecessor tree whose tree edges are positive is reachable. */
  lemma TreeNodesAreReachable(m: seq<seq<int>>, prev: seq<int>, order: seq<nat>, reached: set<int>, source: int, v: int)
    requires IsSquare(m) && |prev| == |m|
    requires PredecessorTree(prev, order, reached, source) && v in reached
    requires forall u :: u in reached && u != source ==> m[prev[u]][u] > 0
    ensures Reachable(m, source, v)
  {
    var w := Walk(prev, order, reached, source, v);
    forall i | 0 <= i < |w| - 1 ensures m[w[i + 1]][w[i]] > 0 {
      assert w[i] in reached && w[i] != source;
    }
    ReversedWalkIsPath(m, w);
  }

  /** A walk whose every step is a positive edge taken backwards, read in reverse, is a residual path. */
  lemma ReversedWalkIsPath(m: seq<seq<int>>, w: seq<int>)
    requires IsSquare(m) && |w| >= 1 && InRange(m, w)
    requires forall i :: 0 <= i < |w| - 1 ==> m[w[i + 1]][w[i]] > 0
    ensures Reachable(m, w[|w| - 1], w[0])
  {
    var p := seq(|w|, i requires 0 <= i < |w| => w[|w| - 1 - i]);
    forall i | 0 <= i < |p| - 1 ensures m[p[i]][p[i + 1]] > 0 {
      var k := |w| - 2 - i;
      assert p[i] == w[k + 1] && p[i + 1] == w[k];
    }
    assert IsResidualPath(m, p) && p[0] == w[|w| - 1] && p[|p| - 1] == w[0];
  }

  // ---------------------------------------------------------------------------
  // Augmenting along a path, as a value

  /** Pushing `f` units along edge (p, c): the forward residual drops, the reverse one grows. */
  ghost function Push(m: seq<seq<int>>, p: int, c: int, f: int): (r: seq<seq<int>>)
    requires IsSquare(m) && 0 <= p < |m| && 0 <= c < |m|
    ensures IsSquare(r) && |r| == |m|
  {
    var m1 := m[p := m[p][c := m[p][c] - f]];
    m1[c := m1[c][p := m1[c][p] + f]]
  }

  lemma PushEntries(m: seq<seq<int>>, p: int, c: int, f: int)
    requires IsSquare(m) && 0 <= p < |m| && 0 <= c < |m|
    ensures forall i, j :: 0 <= i < |m| && 0 <= j < |m| ==>
      Push(m, p, c, f)[i][j] == m[i][j] - (if i == p && j == c then f else 0) + (if i == c && j == p then f else 0)
  {
  }

  /**
   * The residual update along walk `w` (w[0] is the sink and the last node the
   * source), applied edge by edge starting at the sink as the source code does:
   * for every i, `f` moves from edge (w[i+1], w[i]) to edge (w[i], w[i+1]).
   */
  ghost function Augment(m: seq<seq<int>>, w: seq<int>, f: int): (r: seq<seq<int>>)
    requires IsSquare(m) && forall i :: 0 <= i < |w| ==> 0 <= w[i] < |m|
    ensures IsSquare(r) && |r| == |m|
    decreases |w|
  {
    if |w| < 2 then m
    else Push(Augment(m, w[..|w| - 1], f), w[|w| - 1], w[|w| - 2], f)
  }

  /** The update never changes the total residual of a pair of opposite edges. */
  lemma {:induction false} AugmentKeepsPairSums(m: seq<seq<int>>, w: seq<int>, f: int)
    requires IsSquare(m) && InRange(m, w)
    ensures forall i, j :: 0 <= i < |m| && 0 <= j < |m| ==>
      Augment(m, w, f)[i][j] + Augment(m, w, f)[j][i] == m[i][j] + m[j][i]
    decreases |w|
  {
    if |w| >= 2 {
      AugmentKeepsPairSums(m, w[..|w| - 1], f);
    }
  }

  lemma PushRowSums(m: seq<seq<int>>, p: int, c: int, f: int)
    requires IsSquare(m) && 0 <= p < |m| && 0 <= c < |m|
    ensures forall r :: 0 <= r < |m| ==>
      Sum(Push(m, p, c, f)[r]) == Sum(m[r]) - (if r == p then f else 0) + (if r == c then f else 0)
  {
    var m1 := m[p := m[p][c := m[p][c] - f]];
    SumUpdate(m[p], c, m[p][c] - f);
    SumUpdate(m1[c], p, m1[c][p] + f);
  }

  /**
   * Only the ends of the walk change their row sums: the sink gains `f`, the
   * source loses `f`, every node inside the walk passes on what it receives.
   */
  lemma {:induction false} AugmentRowSums(m: seq<seq<int>>, w: seq<int>, f: int)
    requires IsSquare(m) && InRange(m, w) && |w| >= 2
    ensures forall r :: 0 <= r < |m| ==>
      Sum(Augment(m, w, f)[r]) == Sum(m[r]) + (if r == w[0] then f else 0) - (if r == w[|w| - 1] then f else 0)
    decreases |w|
  {
    var n := |w|;
    PushRowSums(Augment(m, w[..n - 1], f), w[n - 1], w[n - 2], f);
    if n > 2 {
      AugmentRowSums(m, w[..n - 1], f);
    }
  }

  /** An entry whose column is not the head of a walk edge never decreases. */
  lemma {:induction false} AugmentOnlyRaisesOffPath(m: seq<seq<int>>, w: seq<int>, f: int, a: int, b: int)
    requires IsSquare(m) && InRange(m, w) && f >= 0
    requires 0 <= a < |m| && 0 <= b < |m|
    requires forall i :: 0 <= i < |w| - 1 ==> w[i] != b
    ensures Augment(m, w, f)[a][b] >= m[a][b]
    decreases |w|
  {
    if |w| >= 2 {
      AugmentOnlyRaisesOffPath(m, w[..|w| - 1], f, a, b);
    }
  }

  /**
   * With `f` at most every forward residual on a walk without repeated nodes,
   * the update keeps every entry non-negative.
   */
  lemma {:induction false} AugmentKeepsNonNegative(m: seq<seq<int>>, w: seq<int>, f: int)
    requires IsSquare(m) && NonNegative(m) && InRange(m, w) && Distinct(w) && f >= 0
    requires forall i :: 0 <= i < |w| - 1 ==> m[w[i + 1]][w[i]] >= f
    ensures NonNegative(Augment(m, w, f))
    decreases |w|
  {
    var n := |w|;
    if n >= 2 {
      var w' := w[..n - 1];
      AugmentKeepsNonNegative(m, w', f);
      AugmentOnlyRaisesOffPath(m, w', f, w[n - 1], w[n - 2]);
    }
  }

  /** Entries outside the walk's edges and their reverses are left as they were. */
  lemma {:induction false} AugmentLeavesOthers(m: seq<seq<int>>, w: seq<int>, f: int, a: int, b: int)
    requires IsSquare(m) && InRange(m, w)
    requires 0 <= a < |m| && 0 <= b < |m|
    requires forall i :: 0 <= i < |w| - 1 ==> !(a == w[i + 1] && b == w[i]) && !(a == w[i] && b == w[i + 1])
    ensures Augment(m, w, f)[a][b] == m[a][b]
    decreases |w|
  {
    if |w| >= 2 {
      AugmentLeavesOthers(m, w[..|w| - 1], f, a, b);
    }
  }

  // ---------------------------------------------------------------------------
  // Flow bookkeeping

  /**
   * What the residual matrix `m` says about the flow pushed so far, relative
   * to the matrix `m0` it started from: residuals stay non-negative, each pair
   * of opposite edges keeps its total, every node other than source and sink
   * passes on exactly what it receives, and `flow` units have left the source
   * and arrived at the sink.
   */
  ghost predicate FlowSoFar(m0: seq<seq<int>>, m: seq<seq<int>>, source: int, sink: int, flow: int)
  {
    IsSquare(m0) && IsSquare(m) && |m0| == |m| && 0 <= source < |m| && 0 <= sink < |m|
    && NonNegative(m)
    && PairSumsKept(m0, m)
    && InnerRowSumsKept(m0, m, source, sink)
    && Sum(m[source]) == Sum(m0[source]) - flow
    && Sum(m[sink]) == Sum(m0[sink]) + flow
  }

  /** Every node other than the two ends has the same row sum in `m` as in `m0`. */
  ghost predicate InnerRowSumsKept(m0: seq<seq<int>>, m: seq<seq<int>>, source: int, sink: int)
  {
    |m0| == |m| && forall r :: 0 <= r < |m| && r != source && r != sink ==> Sum(m[r]) == Sum(m0[r])
  }

  /** The state a completed run leaves behind: the bookkeeping holds and no augmenting path remains. */
  ghost predicate FlowOutcome(m0: seq<seq<int>>, m: seq<seq<int>>, source: int, sink: int, flow: int)
  {
    FlowSoFar(m0, m, source, sink, flow) && !Reachable(m, source, sink)
  }

  /** Before anything is pushed the bookkeeping holds with zero flow. */
  lemma NoFlowYet(m0: seq<seq<int>>, source: int, sink: int)
    requires IsSquare(m0) && NonNegative(m0) && 0 <= source < |m0| && 0 <= sink < |m0|
    ensures FlowSoFar(m0, m0, source, sink, 0)
  {
  }

  /**
   * Augmenting by `f` along a walk from the sink back to the source that
   * repeats no node and whose forward residuals are all at least `f` keeps the
   * bookkeeping and adds `f` to the flow.
   */
  lemma AugmentAddsFlow(m0: seq<seq<int>>, m: seq<seq<int>>, source: int, sink: int, flow: int, w: seq<int>, f: int)
    requires FlowSoFar(m0, m, source, sink, flow) && source != sink
    requires InRange(m, w) && Distinct(w) && |w| >= 2 && w[0] == sink && w[|w| - 1] == source
    requires f >= 0 && forall i :: 0 <= i < |w| - 1 ==> m[w[i + 1]][w[i]] >= f
    ensures FlowSoFar(m0, Augment(m, w, f), source, sink, flow + f)
  {
    AugmentedFlow(m0, m, Augment(m, w, f), source, sink, flow, flow + f, w, f);
  }

  /** The same step, stated for a given result matrix and a given new total. */
  lemma AugmentedFlow(m0: seq<seq<int>>, m: seq<seq<int>>, m': seq<seq<int>>, source: int, sink: int,
                      flow: int, flow': int, w: seq<int>, f: int)
    requires FlowSoFar(m0, m, source, sink, flow) && source != sink
    requires InRange(m, w) && Distinct(w) && |w| >= 2 && w[0] == sink && w[|w| - 1] == source
    requires f >= 0 && forall i :: 0 <= i < |w| - 1 ==> m[w[i + 1]][w[i]] >= f
    requires m' == Augment(m, w, f) && flow' == flow + f
    ensures FlowSoFar(m0, m', source, sink, flow')
  {
    AugmentKeepsPairSums(m, w, f);
    AugmentRowSums(m, w, f);
    AugmentKeepsNonNegative(m, w, f);
  }

  /** Entry-by-entry bounds add up: a bound on every entry bounds the sum. */
  lemma {:induction false} SumBelowPointwise(a: seq<int>, b: seq<int>, c: seq<int>)
    requires |a| == |b| == |c|
    requires forall i :: 0 <= i < |a| ==> a[i] <= b[i] + c[i]
    ensures Sum(a) <= Sum(b) + Sum(c)
    decreases |a|
  {
    if a != [] {
      var n := |a|;
      SumBelowPointwise(a[..n - 1], b[..n - 1], c[..n - 1]);
    }
  }

  /** The flow delivered never exceeds the capacity of the edges entering the sink. */
  lemma FlowBoundedByInflow(m0: seq<seq<int>>, m: seq<seq<int>>, source: int, sink: int, flow: int)
    requires FlowSoFar(m0, m, source, sink, flow) && NonNegative(m0)
    ensures flow <= Sum(Column(m0, sink))
  {
    var col := Column(m0, sink);
    forall j | 0 <= j < |m| ensures m[sink][j] <= m0[sink][j] + col[j] {
      assert m[sink][j] + m[j][sink] == m0[sink][j] + m0[j][sink];
    }
    SumBelowPointwise(m[sink], m0[sink], col);
  }

  /** The flow delivered never exceeds the capacity of the edges leaving the source. */
  lemma FlowBoundedByOutflow(m0: seq<seq<int>>, m: seq<seq<int>>, source: int, sink: int, flow: int)
    requires FlowSoFar(m0, m, source, sink, flow)
    ensures flow <= Sum(m0[source])
  {
    SumNonNegative(m[source]);
  }

  /** The rows on the source's side of a cut have lost exactly the flow, because every other node passes flow on. */
  lemma {:induction false} SideSumsFlow(m0: seq<seq<int>>, m: seq<seq<int>>, source: int, sink: int, flow: int,
                                        side: seq<bool>, p: nat)
    requires FlowSoFar(m0, m, source, sink, flow) && |side| == |m| && side[source] && !side[sink] && p <= |m|
    ensures SideSum(m, side, p) == SideSum(m0, side, p) - (if source < p then flow else 0)
  {
    if p > 0 {
      SideSumsFlow(m0, m, source, sink, flow, side, p - 1);
    }
  }

  /**
   * Every cut with the source on side `true` and the sink on side `false`
   * carries the whole flow: the flow is what the cut's capacity lost, so it
   * never exceeds the cut's original capacity.
   */
  lemma FlowAcrossCut(m0: seq<seq<int>>, m: seq<seq<int>>, source: int, sink: int, flow: int, side: seq<bool>)
    requires FlowSoFar(m0, m, source, sink, flow) && |side| == |m| && side[source] && !side[sink]
    ensures flow == Cut(m0, side) - Cut(m, side)
    ensures flow <= Cut(m0, side)
  {
    CutChange(m0, m, side);
    SideSumsFlow(m0, m, source, sink, flow, side, |m|);
    CutNonNegative(m, side);
  }

  /** No flow from `source` to `sink` through the network `m0` exceeds `flow`. */
  ghost predicate IsMaxFlow(m0: seq<seq<int>>, source: int, sink: int, flow: int)
  {
    forall m, flow' :: FlowSoFar(m0, m, source, sink, flow') ==> flow' <= flow
  }

  lemma ResidualPathExtends(m: seq<seq<int>>, p: seq<int>, j: int)
    requires IsResidualPath(m, p) && 0 <= j < |m| && m[p[|p| - 1]][j] > 0
    ensures IsResidualPath(m, p + [j]) && (p + [j])[0] == p[0] && (p + [j])[|p|] == j
  {
  }

  /**
   * Max-flow min-cut: when no augmenting path remains, the nodes reachable
   * from the source form a cut whose original capacity equals the flow, so
   * no flow from the same network exceeds it.
   */
  lemma MaxFlowMinCut(m0: seq<seq<int>>, m: seq<seq<int>>, source: int, sink: int, flow: int)
    requires FlowOutcome(m0, m, source, sink, flow)
    ensures exists side :: |side| == |m0| && side[source] && !side[sink] && flow == Cut(m0, side)
    ensures IsMaxFlow(m0, source, sink, flow)
  {
    var side := seq(|m|, i => Reachable(m, source, i));
    assert IsResidualPath(m, [source]);
    forall i, j | 0 <= i < |m| && 0 <= j < |m| && side[i] && !side[j]
      ensures m[i][j] == 0
    {
      if m[i][j] != 0 {
        var p :| IsResidualPath(m, p) && p[0] == source && p[|p| - 1] == i;
        ResidualPathExtends(m, p, j);
      }
    }
    CutZero(m, side);
    FlowAcrossCut(m0, m, source, sink, flow, side);
    forall m', flow' | FlowSoFar(m0, m', source, sink, flow')
      ensures flow' <= flow
    {
      FlowAcrossCut(m0, m', source, sink, flow', side);
    }
  }

  // ---------------------------------------------------------------------------
  // The supersource / supersink construction

  /**
   * `m` is `graph` with node 0 prepended as supersource and node |graph|+1
   * appended as supersink: original node i becomes i+1, the supersource feeds
   * every source and every sink drains into the supersink with capacity
   * `infinity`, nothing enters the supersource and nothing leaves the supersink.
   */
  ghost predicate IsSupergraph(m: seq<seq<int>>, sources: seq<int>, sinks: seq<int>, graph: seq<seq<int>>, infinity: int)
  {
    var n := |graph|;
    IsSquare(graph) && IsSquare(m) && |m| == n + 2
    && (forall i :: 0 <= i < |m| ==> m[i][0] == 0)
    && (forall i, j :: i == n + 1 && 0 <= j < |m| ==> m[i][j] == 0)
    && (forall j :: 1 <= j < |m| ==> m[0][j] == if j - 1 in sources then infinity else 0)
    && (forall i, j :: 1 <= i <= n && j == n + 1 ==> m[i][j] == if i - 1 in sinks then infinity else 0)
    && forall i, j :: 1 <= i <= n && 1 <= j <= n ==> m[i][j] == graph[i - 1][j - 1]
  }

  /** The network is fully determined by the corridors, the entrances, the exits and the sentinel. */
  lemma SupergraphUnique(m: seq<seq<int>>, m': seq<seq<int>>, sources: seq<int>, sinks: seq<int>,
                         graph: seq<seq<int>>, infinity: int)
    requires IsSupergraph(m, sources, sinks, graph, infinity) && IsSupergraph(m', sources, sinks, graph, infinity)
    ensures m == m'
  {
    var n := |graph|;
    forall i | 0 <= i < |m| ensures m[i] == m'[i] {
      forall j | 0 <= j < |m| ensures m[i][j] == m'[i][j] {
        if j == 0 {
        } else if i == 0 {
        } else if i == n + 1 {
        } else if j == n + 1 {
        } else {
        }
      }
    }
  }

  /** The construction keeps every capacity non-negative when the sentinel is. */
  lemma SupergraphNonNegative(m: seq<seq<int>>, sources: seq<int>, sinks: seq<int>, graph: seq<seq<int>>, infinity: int)
    requires IsSupergraph(m, sources, sinks, graph, infinity) && NonNegative(graph) && infinity >= 0
    ensures NonNegative(m)
  {
    var n := |graph|;
    forall i, j | 0 <= i < |m| && 0 <= j < |m[i]| ensures m[i][j] >= 0 {
      if j == 0 || i == n + 1 || i == 0 || j == n + 1 {
      } else {
        assert m[i][j] == graph[i - 1][j - 1];
      }
    }
  }

  /** Row i+1 of the network is room i's corridors framed by the edge from the supersource and the edge to the supersink. */
  lemma SupergraphRow(m: seq<seq<int>>, sources: seq<int>, sinks: seq<int>, graph: seq<seq<int>>, infinity: int, i: int)
    requires IsSupergraph(m, sources, sinks, graph, infinity) && 0 <= i < |graph|
    ensures m[i + 1] == [0] + graph[i] + [if i in sinks then infinity else 0]
  {
    var n := |graph|;
    var r := [0] + graph[i] + [if i in sinks then infinity else 0];
    forall j | 0 <= j < n + 2 ensures m[i + 1][j] == r[j] {
      if 1 <= j <= n {
        assert r[j] == graph[i][j - 1];
      }
    }
  }

  /** Column t+1 of the network is the corridors into room t framed by the supersource and the supersink. */
  lemma SupergraphColumn(m: seq<seq<int>>, sources: seq<int>, sinks: seq<int>, graph: seq<seq<int>>, infinity: int, t: int)
    requires IsSupergraph(m, sources, sinks, graph, infinity) && 0 <= t < |graph|
    ensures Column(m, t + 1) == [if t in sources then infinity else 0] + Column(graph, t) + [0]
  {
    var n := |graph|;
    var c := [if t in sources then infinity else 0] + Column(graph, t) + [0];
    forall i | 0 <= i < n + 2 ensures Column(m, t + 1)[i] == c[i] {
      if 1 <= i <= n {
        assert c[i] == graph[i - 1][t];
      }
    }
  }

  lemma SumFramed(a: int, s: seq<int>, b: int)
    ensures Sum([a] + s + [b]) == a + Sum(s) + b
  {
    SumConcat([a] + s, [b]);
    SumCons(a, s);
    assert [b][..0] == [];
  }

  /** Total capacity of the corridors leaving the entrances among the first `k` rooms, each entrance counted once. */
  ghost function EntranceCapacity(path: seq<seq<int>>, entrances: seq<int>, k: nat): int
    requires k <= |path|
  {
    if k == 0 then 0 else EntranceCapacity(path, entrances, k - 1) + (if k - 1 in entrances then Sum(path[k - 1]) else 0)
  }

  /** Total capacity of the corridors entering the exits among the first `k` rooms, each exit counted once. */
  ghost function ExitCapacity(path: seq<seq<int>>, exits: seq<int>, k: nat): int
    requires IsSquare(path) && k <= |path|
  {
    if k == 0 then 0 else ExitCapacity(path, exits, k - 1) + (if k - 1 in exits then Sum(Column(path, k - 1)) else 0)
  }

  /** Counting each entrance's corridors once never exceeds the sum of all corridors. */
  lemma {:induction false} EntranceCapacityBelowTotal(path: seq<seq<int>>, entrances: seq<int>, k: nat)
    requires NonNegative(path) && k <= |path|
    ensures EntranceCapacity(path, entrances, k) <= TotalCapacity(path[..k])
  {
    if k > 0 {
      EntranceCapacityBelowTotal(path, entrances, k - 1);
      assert path[..k][..k - 1] == path[..k - 1];
      SumNonNegative(path[k - 1]);
    }
  }

  /** The cut around the supersource and the entrances. */
  ghost function EntranceSide(entrances: seq<int>, n: nat): (side: seq<bool>)
    ensures |side| == n + 2
  {
    seq(n + 2, r => r == 0 || (1 <= r <= n && r - 1 in entrances))
  }

  /** The cut that leaves only the exits and the supersink on side `false`. */
  ghost function ExitSide(exits: seq<int>, n: nat): (side: seq<bool>)
    ensures |side| == n + 2
  {
    seq(n + 2, r => !(r == n + 1 || (1 <= r <= n && r - 1 in exits)))
  }

  lemma {:induction false} EntranceBlock(m: seq<seq<int>>, entrances: seq<int>, exits: seq<int>, path: seq<seq<int>>,
                                         infinity: int, k: nat)
    requires IsSupergraph(m, entrances, exits, path, infinity) && NonNegative(path) && infinity >= 0
    requires forall s :: s in entrances ==> 0 <= s < |path| && s !in exits
    requires k <= |path|
    ensures RowBlock(m, EntranceSide(entrances, |path|), true, false, k + 1, |m|) <= EntranceCapacity(path, entrances, k)
  {
    var n := |path|;
    var side := EntranceSide(entrances, n);
    SupergraphNonNegative(m, entrances, exits, path, infinity);
    if k == 0 {
      SelZero(m[0], side, false, |m|);
    } else {
      EntranceBlock(m, entrances, exits, path, infinity, k - 1);
      if k - 1 in entrances {
        SupergraphRow(m, entrances, exits, path, infinity, k - 1);
        SumFramed(0, path[k - 1], 0);
        SelAtMostSum(m[k], side, false);
      }
    }
  }

  /**
   * No flow through the network exceeds the capacity of the corridors
   * leaving the entrances, when no room is both an entrance and an exit.
   */
  lemma EntranceCut(m: seq<seq<int>>, entrances: seq<int>, exits: seq<int>, path: seq<seq<int>>, infinity: int)
    requires IsSupergraph(m, entrances, exits, path, infinity) && NonNegative(path) && infinity >= 0
    requires forall s :: s in entrances ==> 0 <= s < |path| && s !in exits
    ensures var side := EntranceSide(entrances, |path|);
            Sides(m, side) && side[0] && !side[|path| + 1] && Cut(m, side) <= EntranceCapacity(path, entrances, |path|)
  {
    EntranceBlock(m, entrances, exits, path, infinity, |path|);
  }

  lemma {:induction false} ExitBlock(m: seq<seq<int>>, entrances: seq<int>, exits: seq<int>, path: seq<seq<int>>,
                                     infinity: int, k: nat)
    requires IsSupergraph(m, entrances, exits, path, infinity) && NonNegative(path) && infinity >= 0
    requires forall s :: s in entrances ==> 0 <= s < |path| && s !in exits
    requires k <= |path|
    ensures ColBlock(m, ExitSide(exits, |path|), true, false, |m|, k + 1) <= ExitCapacity(path, exits, k)
  {
    var n := |path|;
    var side := ExitSide(exits, n);
    SupergraphNonNegative(m, entrances, exits, path, infinity);
    if k > 0 {
      ExitBlock(m, entrances, exits, path, infinity, k - 1);
      if k - 1 in exits {
        SupergraphColumn(m, entrances, exits, path, infinity, k - 1);
        SumFramed(0, Column(path, k - 1), 0);
        SelAtMostSum(Column(m, k), side, true);
      }
    }
  }

  /**
   * No flow through the network exceeds the capacity of the corridors
   * entering the exits, when no room is both an entrance and an exit.
   */
  lemma ExitCut(m: seq<seq<int>>, entrances: seq<int>, exits: seq<int>, path: seq<seq<int>>, infinity: int)
    requires IsSupergraph(m, entrances, exits, path, infinity) && NonNegative(path) && infinity >= 0
    requires forall s :: s in entrances ==> 0 <= s < |path| && s !in exits
    ensures var side := ExitSide(exits, |path|);
            Sides(m, side) && side[0] && !side[|path| + 1] && Cut(m, side) <= ExitCapacity(path, exits, |path|)
  {
    var n := |path|;
    var side := ExitSide(exits, n);
    ExitBlock(m, entrances, exits, path, infinity, n);
    SelZero(Column(m, n + 1), side, true, |m|);
    Fubini(m, side, true, false, |m|, |m|);
  }

  lemma SupergraphFromCells(g: array2<int>, sources: seq<int>, sinks: seq<int>, graph: seq<seq<int>>, infinity: int, last: int)
    requires IsSquare(graph) && last == |graph| + 1 && g.Length0 == g.Length1 == |graph| + 2
    requires forall s :: s in sources ==> 0 <= s < |graph|
    requires forall c :: 0 <= c < |graph| + 2 ==> g[last, c] == 0
    requires forall c :: 0 <= c < |graph| + 2 ==> g[0, c] == if c - 1 in sources then infinity else 0
    requires forall r :: 1 <= r <= |graph| ==> g[r, 0] == 0
    requires forall r :: 1 <= r <= |graph| ==> g[r, last] == if r - 1 in sinks then infinity else 0
    requires forall r, c :: 1 <= r <= |graph| && 1 <= c <= |graph| ==> g[r, c] == graph[r - 1][c - 1]
    ensures IsSupergraph(Matrix(g), sources, sinks, graph, infinity)
  {
    var n := |graph|;
    var m := Matrix(g);
    assert g[0, 0] == 0;
    forall i | 0 <= i < |m| ensures m[i][0] == 0 {
      if i == 0 {} else if i == last { assert g[last, 0] == 0; } else {}
    }
  }

  method AddSupersourceAndSupersink(sources: seq<int>, sinks: seq<int>, graph: seq<seq<int>>, infinity: int)
    returns (g: array2<int>)
    requires IsSquare(graph)
    requires forall s :: s in sources ==> 0 <= s < |graph|
    ensures fresh(g)
    ensures g.Length0 == g.Length1 == |graph| + 2
    ensures IsSupergraph(Matrix(g), sources, sinks, graph, infinity)
  {
    var n := |graph|;
    var last := n + 1;
    g := new int[n + 2, n + 2];
    // The supersource row and the supersink row.
    var j := 0;
    while j < n + 2
      invariant 0 <= j <= n + 2
      invariant forall c :: 0 <= c < j ==> g[last, c] == 0
      invariant forall c :: 0 <= c < j ==> g[0, c] == if c - 1 in sources then infinity else 0
    {
      g[last, j] := 0;
      g[0, j] := if j - 1 in sources then infinity else 0;
      j := j + 1;
    }
    // Row i of the original graph becomes row i + 1, framed by the two new columns.
    var i := 1;
    while i <= n
      invariant 1 <= i <= n + 1
      invariant forall c :: 0 <= c < n + 2 ==> g[last, c] == 0
      invariant forall c :: 0 <= c < n + 2 ==> g[0, c] == if c - 1 in sources then infinity else 0
      invariant forall r :: 1 <= r < i ==> g[r, 0] == 0
      invariant forall r :: 1 <= r < i ==> g[r, last] == if r - 1 in sinks then infinity else 0
      invariant forall r, c :: 1 <= r < i && 1 <= c <= n ==> g[r, c] == graph[r - 1][c - 1]
    {
      j := 0;
      while j < n + 2
        invariant 0 <= j <= n + 2
        invariant forall c :: 0 <= c < n + 2 ==> g[last, c] == 0
        invariant forall c :: 0 <= c < n + 2 ==> g[0, c] == if c - 1 in sources then infinity else 0
        invariant forall r :: 1 <= r < i ==> g[r, 0] == 0
        invariant forall r :: 1 <= r < i ==> g[r, last] == if r - 1 in sinks then infinity else 0
        invariant forall r, c :: 1 <= r < i && 1 <= c <= n ==> g[r, c] == graph[r - 1][c - 1]
        invariant forall c :: 0 <= c < j ==>
          g[i, c] == if c == 0 then 0 else if c == last then (if i - 1 in sinks then infinity else 0) else graph[i - 1][c - 1]
      {
        if j == 0 {
          g[i, j] := 0;
        } else if j == last {
          g[i, j] := if i - 1 in sinks then infinity else 0;
        } else {
          g[i, j] := graph[i - 1][j - 1];
        }
        j := j + 1;
      }
      i := i + 1;
    }
    SupergraphFromCells(g, sources, sinks, graph, infinity, last);
  }

  // ---------------------------------------------------------------------------
  // Breadth-first search for an augmenting path

  function CountUnvisited(visited: seq<bool>): nat
  {
    if visited == [] then 0
    else CountUnvisited(visited[..|visited| - 1]) + (if visited[|visited| - 1] then 0 else 1)
  }

  lemma {:induction false} CountUnvisitedMark(visited: seq<bool>, i: int)
    requires 0 <= i < |visited| && !visited[i]
    ensures CountUnvisited(visited[i := true]) == CountUnvisited(visited) - 1
    decreases |visited|
  {
    var n := |visited|;
    if i == n - 1 {
      assert visited[i := true][..n - 1] == visited[..n - 1];
    } else {
      assert visited[i := true][..n - 1] == visited[..n - 1][i := true];
      CountUnvisitedMark(visited[..n - 1], i);
    }
  }

  /**
   * The search state between steps: the discovered nodes form a predecessor
   * tree over positive edges, stamps stay below the next stamp, every
   * positive edge out of a fully processed node leads to a discovered node,
   * and undiscovered nodes keep their old predecessor entries.
   */
  ghost predicate Searching(m: seq<seq<int>>, prev: seq<int>, prev0: seq<int>, order: seq<nat>,
                            reached: set<int>, processed: set<int>, source: int, stamp: nat)
  {
    IsSquare(m) && |prev| == |m| && |prev0| == |m|
    && PredecessorTree(prev, order, reached, source)
    && (forall v :: v in reached && v != source ==> m[prev[v]][v] > 0)
    && (forall v :: v in reached ==> order[v] < stamp)
    && processed <= reached
    && (forall u, v :: u in processed && 0 <= v < |m| && m[u][v] > 0 ==> v in reached)
    && (forall v :: 0 <= v < |m| && v !in reached ==> prev[v] == prev0[v])
  }

  lemma StartSearch(m: seq<seq<int>>, prev: seq<int>, source: int)
    requires IsSquare(m) && |prev| == |m| && 0 <= source < |m|
    ensures Searching(m, prev, prev, seq(|m|, _ => 0), {source}, {}, source, 1)
  {
  }

  /** Discovering `next` from `current` along a positive edge keeps the search state. */
  lemma Discover(m: seq<seq<int>>, prev: seq<int>, prev0: seq<int>, order: seq<nat>,
                 reached: set<int>, processed: set<int>, source: int, stamp: nat, current: int, next: int)
    requires Searching(m, prev, prev0, order, reached, processed, source, stamp)
    requires current in reached && 0 <= next < |m| && next !in reached && m[current][next] > 0
    ensures Searching(m, prev[next := current], prev0, order[next := stamp], reached + {next}, processed, source, stamp + 1)
  {
  }

  /** Once every positive edge out of `current` leads to a discovered node, it counts as processed. */
  lemma FinishNode(m: seq<seq<int>>, prev: seq<int>, prev0: seq<int>, order: seq<nat>,
                   reached: set<int>, processed: set<int>, source: int, stamp: nat, current: int)
    requires Searching(m, prev, prev0, order, reached, processed, source, stamp)
    requires current in reached
    requires forall v :: 0 <= v < |m| && m[current][v] > 0 ==> v in reached
    ensures Searching(m, prev, prev0, order, reached, processed + {current}, source, stamp)
  {
  }

  /**
   * The queue discipline: `visited` marks exactly the discovered nodes, the
   * queue holds discovered nodes, and every discovered node is either queued
   * or already done.
   */
  ghost predicate Frontier(visited: seq<bool>, queue: seq<int>, reached: set<int>, done: set<int>)
  {
    (forall v :: 0 <= v < |visited| ==> (visited[v] <==> v in reached))
    && (forall i :: 0 <= i < |queue| ==> queue[i] in reached)
    && forall v :: v in reached ==> v in done || v in queue
  }

  lemma PopFrontier(visited: seq<bool>, queue: seq<int>, reached: set<int>, done: set<int>)
    requires Frontier(visited, queue, reached, done) && queue != []
    ensures Frontier(visited, queue[..|queue| - 1], reached, done + {queue[|queue| - 1]})
  {
    var q := queue[..|queue| - 1];
    forall v | v in reached ensures v in done + {queue[|queue| - 1]} || v in q {
      if v in queue && v != queue[|queue| - 1] {
        var i :| 0 <= i < |queue| && queue[i] == v;
        assert q[i] == v;
      }
    }
  }

  lemma PushFrontier(visited: seq<bool>, queue: seq<int>, reached: set<int>, done: set<int>, next: int)
    requires Frontier(visited, queue, reached, done) && 0 <= next < |visited|
    ensures Frontier(visited[next := true], [next] + queue, reached + {next}, done)
  {
    var q := [next] + queue;
    forall i | 0 <= i < |q| ensures q[i] in reached + {next} {
      if i > 0 { assert q[i] == queue[i - 1]; }
    }
    forall v | v in reached + {next} ensures v in done || v in q {
      if v != next && v !in done {
        var i :| 0 <= i < |queue| && queue[i] == v;
        assert q[i + 1] == v;
      }
    }
  }

  /** Every positive edge from `current` to a node below `index` leads to a discovered node. */
  ghost predicate Scanned(m: seq<seq<int>>, current: int, index: int, reached: set<int>)
  {
    IsSquare(m) && 0 <= current < |m| && 0 <= index <= |m|
    && forall v :: 0 <= v < index && m[current][v] > 0 ==> v in reached
  }

  lemma ScanStep(m: seq<seq<int>>, current: int, index: int, reached: set<int>, reached': set<int>)
    requires Scanned(m, current, index, reached) && index < |m| && reached <= reached'
    requires m[current][index] > 0 ==> index in reached'
    ensures Scanned(m, current, index + 1, reached')
  {
  }

  /**
   * What a completed search establishes: the discovered nodes form a
   * predecessor tree over edges with positive residual, no such edge leaves
   * them, and the answer is true exactly when the sink was discovered, which
   * is exactly when the sink is reachable at all.
   */
  ghost predicate SearchOutcome(m: seq<seq<int>>, prev: seq<int>, order: seq<nat>, reached: set<int>,
                                source: int, sink: int, found: bool)
  {
    IsSquare(m) && |prev| == |m|
    && PredecessorTree(prev, order, reached, source)
    && (forall v :: v in reached && v != source ==> m[prev[v]][v] > 0)
    && Closed(m, reached)
    && (found <==> sink in reached)
    && (found <==> Reachable(m, source, sink))
  }

  /**
   * First-in-first-out search from `source` over edges with positive residual.
   * Nodes are marked when first discovered and `previousNode` records where
   * from; entries of nodes not reached this time keep their old values. The
   * result is true exactly when the sink is reachable.
   */
  method BreadthFirstSearch(graph: array2<int>, source: int, sink: int, previousNode: array<int>)
    returns (found: bool, ghost reached: set<int>, ghost order: seq<nat>)
    requires graph.Length0 == graph.Length1 == previousNode.Length
    requires 0 <= source < graph.Length0 && 0 <= sink < graph.Length0
    modifies previousNode
    ensures Matrix(graph) == old(Matrix(graph))
    ensures SearchOutcome(Matrix(graph), previousNode[..], order, reached, source, sink, found)
    ensures forall v :: 0 <= v < previousNode.Length && v !in reached ==> previousNode[v] == old(previousNode[v])
  {
    var n := graph.Length0;
    ghost var m := Matrix(graph);
    ghost var prev0 := previousNode[..];
    var visited: seq<bool> := seq(n, _ => false);
    var queue: seq<int> := [];
    ghost var processed: set<int> := {};
    ghost var stamp: nat := 1;
    order := seq(n, _ => 0);
    reached := {};
    StartSearch(m, prev0, source);
    PushFrontier(visited, queue, reached, processed, source);

    queue := [source] + queue;
    visited := visited[source := true];
    reached := {source};

    while queue != []
      invariant Searching(m, previousNode[..], prev0, order, reached, processed, source, stamp)
      invariant |visited| == n
      invariant Frontier(visited, queue, reached, processed)
      decreases CountUnvisited(visited), |queue|
    {
      PopFrontier(visited, queue, reached, processed);
      var current := queue[|queue| - 1];
      queue := queue[..|queue| - 1];
      ghost var unvisited0 := CountUnvisited(visited);
      ghost var queued0 := |queue|;

      var index := 0;
      while index < n
        invariant 0 <= index <= n
        invariant current in reached
        invariant Searching(m, previousNode[..], prev0, order, reached, processed, source, stamp)
        invariant |visited| == n
        invariant Frontier(visited, queue, reached, processed + {current})
        invariant Scanned(m, current, index, reached)
        invariant CountUnvisited(visited) + |queue| == unvisited0 + queued0
        invariant CountUnvisited(visited) <= unvisited0
      {
        ghost var reached0 := reached;
        if !visited[index] && graph[current, index] > 0 {
          ghost var prev := previousNode[..];
          Discover(m, prev, prev0, order, reached, processed, source, stamp, current, index);
          PushFrontier(visited, queue, reached, processed + {current}, index);
          CountUnvisitedMark(visited, index);
          queue := [index] + queue;
          visited := visited[index := true];
          previousNode[index] := current;
          assert previousNode[..] == prev[index := current];
          reached := reached + {index};
          order := order[index := stamp];
          stamp := stamp + 1;
        } else {
          assert graph[current, index] == m[current][index];
        }
        ScanStep(m, current, index, reached0, reached);
        index := index + 1;
      }
      FinishNode(m, previousNode[..], prev0, order, reached, processed, source, stamp, current);
      processed := processed + {current};
    }

    found := visited[sink];

    assert Closed(m, reached);
    if found {
      TreeNodesAreReachable(m, previousNode[..], order, reached, source, sink);
    } else if Reachable(m, source, sink) {
      ClosedSetHoldsReachable(m, reached, source, sink);
    }
  }

  // ---------------------------------------------------------------------------
  // Edmonds–Karp

  function Min(a: int, b: int): (r: int)
    ensures r <= a && r <= b && (r == a || r == b)
  {
    if a <= b then a else b
  }

  /** `w` is the path the search recorded, read from the sink back to the source. */
  ghost predicate TracesBack(previousNode: array<int>, w: seq<int>, source: int, sink: int)
    reads previousNode
  {
    |w| >= 2 && w[0] == sink && w[|w| - 1] == source
    && (forall i :: 0 <= i < |w| ==> 0 <= w[i] < previousNode.Length)
    && forall i :: 0 <= i < |w| - 1 ==> w[i] != source && previousNode[w[i]] == w[i + 1]
  }

  /**
   * When the search reached the sink, following the predecessors from the sink
   * gives a walk to the source without repeated nodes whose edges all have
   * positive residual.
   */
  lemma AugmentingWalk(m: seq<seq<int>>, prev: seq<int>, order: seq<nat>, reached: set<int>, source: int, sink: int)
    returns (w: seq<int>)
    requires IsSquare(m) && |prev| == |m|
    requires PredecessorTree(prev, order, reached, source) && sink in reached && sink != source
    requires forall v :: v in reached && v != source ==> m[prev[v]][v] > 0
    ensures |w| >= 2 && w[0] == sink && w[|w| - 1] == source && Distinct(w) && InRange(m, w)
    ensures forall i :: 0 <= i < |w| - 1 ==> w[i] != source && prev[w[i]] == w[i + 1]
    ensures forall i :: 0 <= i < |w| - 1 ==> m[w[i + 1]][w[i]] > 0
  {
    w := Walk(prev, order, reached, source, sink);
    forall i, j | 0 <= i < j < |w| ensures w[i] != w[j] {
      assert order[w[j]] < order[w[i]];
    }
  }

  /** The smallest residual along the recorded path, walking back from the sink. */
  method PathBottleneck(graph: array2<int>, previousNode: array<int>, source: int, sink: int, ghost w: seq<int>)
    returns (pathFlow: int)
    requires graph.Length0 == graph.Length1 == previousNode.Length
    requires TracesBack(previousNode, w, source, sink)
    requires forall i :: 0 <= i < |w| - 1 ==> graph[w[i + 1], w[i]] > 0
    ensures pathFlow > 0
    ensures forall i :: 0 <= i < |w| - 1 ==> pathFlow <= graph[w[i + 1], w[i]]
    ensures exists i :: 0 <= i < |w| - 1 && pathFlow == graph[w[i + 1], w[i]]
  {
    assert previousNode[w[0]] == w[1];
    pathFlow := graph[previousNode[sink], sink];
    var currNode := sink;
    ghost var k := 0;
    while currNode != source
      invariant 0 <= k < |w| && currNode == w[k]
      invariant pathFlow > 0
      invariant forall i :: 0 <= i < k ==> pathFlow <= graph[w[i + 1], w[i]]
      invariant exists i :: 0 <= i < |w| - 1 && i <= k && pathFlow == graph[w[i + 1], w[i]]
      decreases |w| - k
    {
      var prevNode := previousNode[currNode];
      assert prevNode == w[k + 1];
      pathFlow := Min(pathFlow, graph[prevNode, currNode]);
      currNode := prevNode;
      k := k + 1;
    }
  }

  /** Moves `f` units of residual from edge (p, c) to the reverse edge (c, p). */
  method PushFlow(graph: array2<int>, p: int, c: int, f: int)
    requires graph.Length0 == graph.Length1
    requires 0 <= p < graph.Length0 && 0 <= c < graph.Length0
    modifies graph
    ensures Matrix(graph) == Push(old(Matrix(graph)), p, c, f)
  {
    ghost var before := Matrix(graph);
    graph[p, c] := graph[p, c] - f;
    graph[c, p] := graph[c, p] + f;
    PushEntries(before, p, c, f);
    MatrixIs(graph, Push(before, p, c, f));
  }

  /** Moves `pathFlow` from every forward edge of the recorded path to its reverse edge. */
  method AugmentPath(graph: array2<int>, previousNode: array<int>, source: int, sink: int, pathFlow: int, ghost w: seq<int>)
    requires graph.Length0 == graph.Length1 == previousNode.Length
    requires TracesBack(previousNode, w, source, sink)
    modifies graph
    ensures Matrix(graph) == Augment(old(Matrix(graph)), w, pathFlow)
  {
    ghost var m := Matrix(graph);
    var current := sink;
    ghost var k := 0;
    assert w[..1] == [sink];
    while current != source
      invariant 0 <= k < |w| && current == w[k]
      invariant Matrix(graph) == Augment(m, w[..k + 1], pathFlow)
      decreases |w| - k
    {
      var prevNode := previousNode[current];
      assert prevNode == w[k + 1];
      PushFlow(graph, prevNode, current, pathFlow);
      assert w[..k + 2][..k + 1] == w[..k + 1];
      current := prevNode;
      k := k + 1;
    }
    assert w[..k + 1] == w;
  }

  /**
   * One round of the main loop: the bottleneck of the path the search
   * recorded is pushed along it. The bookkeeping is kept and the flow grows
   * by the (positive) bottleneck.
   */
  method AugmentAlongSearchPath(graph: array2<int>, previousNode: array<int>, source: int, sink: int,
                                ghost m0: seq<seq<int>>, ghost flow: int, ghost order: seq<nat>, ghost reached: set<int>)
    returns (pathFlow: int, ghost residual: seq<seq<int>>)
    requires graph.Length0 == graph.Length1 == previousNode.Length
    requires source != sink
    requires FlowSoFar(m0, Matrix(graph), source, sink, flow)
    requires SearchOutcome(Matrix(graph), previousNode[..], order, reached, source, sink, true)
    modifies graph
    ensures pathFlow > 0
    ensures residual == Matrix(graph)
    ensures FlowSoFar(m0, residual, source, sink, flow + pathFlow)
  {
    ghost var w := AugmentingWalk(Matrix(graph), previousNode[..], order, reached, source, sink);
    assert TracesBack(previousNode, w, source, sink);
    pathFlow, residual := AugmentAlongWalk(graph, previousNode, source, sink, m0, flow, w);
  }

  /** Pushes the bottleneck of the walk `w` recorded in `previousNode` along it. */
  method AugmentAlongWalk(graph: array2<int>, previousNode: array<int>, source: int, sink: int,
                          ghost m0: seq<seq<int>>, ghost flow: int, ghost w: seq<int>)
    returns (pathFlow: int, ghost residual: seq<seq<int>>)
    requires graph.Length0 == graph.Length1 == previousNode.Length
    requires source != sink
    requires FlowSoFar(m0, Matrix(graph), source, sink, flow)
    requires TracesBack(previousNode, w, source, sink) && Distinct(w)
    requires forall i :: 0 <= i < |w| - 1 ==> graph[w[i + 1], w[i]] > 0
    modifies graph
    ensures pathFlow > 0
    ensures residual == Matrix(graph)
    ensures FlowSoFar(m0, residual, source, sink, flow + pathFlow)
  {
    ghost var m := Matrix(graph);
    pathFlow := PathBottleneck(graph, previousNode, source, sink, w);
    assert forall i :: 0 <= i < |w| - 1 ==> m[w[i + 1]][w[i]] >= pathFlow;
    ghost var target := Augment(m, w, pathFlow);
    AugmentedFlow(m0, m, target, source, sink, flow, flow + pathFlow, w, pathFlow);
    AugmentPath(graph, previousNode, source, sink, pathFlow, w);
    residual := Matrix(graph);
    assert residual == target;
  }

  /**
   * Repeatedly augments along breadth-first paths from `source` to `sink`,
   * updating `graph` in place, and returns the total flow pushed.
   */
  method EdmondsKarp(graph: array2<int>, source: int, sink: int) returns (maxFlow: int)
    requires graph.Length0 == graph.Length1
    requires 0 <= source < graph.Length0 && 0 <= sink < graph.Length0 && source != sink
    requires NonNegative(Matrix(graph))
    modifies graph
    ensures FlowOutcome(old(Matrix(graph)), Matrix(graph), source, sink, maxFlow)
    ensures 0 <= maxFlow <= Sum(old(Matrix(graph))[source])
    ensures IsMaxFlow(old(Matrix(graph)), source, sink, maxFlow)
    ensures exists side :: |side| == graph.Length0 && side[source] && !side[sink]
                           && maxFlow == Cut(old(Matrix(graph)), side)
  {
    var n := graph.Length0;
    ghost var m0 := Matrix(graph);
    var previousNode := new int[n](_ => -1);
    maxFlow := 0;
    NoFlowYet(m0, source, sink);
    SumNonNegative(m0[source]);

    var found: bool;
    ghost var reached: set<int>, order: seq<nat>;
    found, reached, order := BreadthFirstSearch(graph, source, sink, previousNode);

    while found
      invariant previousNode.Length == n
      invariant FlowSoFar(m0, Matrix(graph), source, sink, maxFlow) && 0 <= maxFlow
      invariant SearchOutcome(Matrix(graph), previousNode[..], order, reached, source, sink, found)
      decreases Sum(Matrix(graph)[source])
    {
      SumNonNegative(Matrix(graph)[source]);
      var pathFlow;
      ghost var m';
      pathFlow, m' := AugmentAlongSearchPath(graph, previousNode, source, sink, m0, maxFlow, order, reached);
      maxFlow := maxFlow + pathFlow;
      found, reached, order := BreadthFirstSearch(graph, source, sink, previousNode);
      assert Matrix(graph) == m';
    }
    FlowBoundedByOutflow(m0, Matrix(graph), source, sink, maxFlow);
    MaxFlowMinCut(m0, Matrix(graph), source, sink, maxFlow);
  }

  // ---------------------------------------------------------------------------
  // Entry point

  /** Sum of every capacity in the matrix. */
  function TotalCapacity(m: seq<seq<int>>): int
  {
    if m == [] then 0 else TotalCapacity(m[..|m| - 1]) + Sum(m[|m| - 1])
  }

  /** Extending a list of rows by one row adds that row's sum to the total. */
  lemma TotalCapacityPrefix(m: seq<seq<int>>, k: int)
    requires 0 < k <= |m|
    ensures TotalCapacity(m[..k]) == TotalCapacity(m[..k - 1]) + Sum(m[k - 1])
  {
    assert m[..k][..k - 1] == m[..k - 1];
  }

  lemma {:induction false} TotalCapacityNonNegative(m: seq<seq<int>>)
    requires NonNegative(m)
    ensures TotalCapacity(m) >= 0
    decreases |m|
  {
    if m != [] {
      var n := |m|;
      assert NonNegative(m[..n - 1]);
      TotalCapacityNonNegative(m[..n - 1]);
      SumNonNegative(m[n - 1]);
    }
  }

  /**
   * What a completed run on the escape-pods network delivers: a maximum flow,
   * equal to the capacity of some cut, and bounded by the corridors leaving
   * the entrances and by those entering the exits.
   */
  lemma NetworkBounds(network: seq<seq<int>>, residual: seq<seq<int>>, entrances: seq<int>, exits: seq<int>,
                      path: seq<seq<int>>, infinity: int, flow: int)
    requires IsSupergraph(network, entrances, exits, path, infinity) && NonNegative(path) && infinity >= 0
    requires forall s :: s in entrances ==> 0 <= s < |path| && s !in exits
    requires FlowOutcome(network, residual, 0, |path| + 1, flow) && infinity > TotalCapacity(path)
    ensures IsMaxFlow(network, 0, |path| + 1, flow)
    ensures exists side :: |side| == |path| + 2 && side[0] && !side[|path| + 1] && flow == Cut(network, side)
                           && forall i, j :: 0 <= i < |path| + 2 && 0 <= j < |path| + 2 && side[i] && !side[j] ==>
                                               network[i][j] < infinity
    ensures flow <= EntranceCapacity(path, entrances, |path|)
    ensures flow <= ExitCapacity(path, exits, |path|)
  {
    MaxFlowMinCut(network, residual, 0, |path| + 1, flow);
    EntranceCut(network, entrances, exits, path, infinity);
    FlowAcrossCut(network, residual, 0, |path| + 1, flow, EntranceSide(entrances, |path|));
    ExitCut(network, entrances, exits, path, infinity);
    FlowAcrossCut(network, residual, 0, |path| + 1, flow, ExitSide(exits, |path|));
    EntranceCapacityBelowTotal(path, entrances, |path|);
    assert path[..|path|] == path;
    SupergraphNonNegative(network, entrances, exits, path, infinity);
    var side :| |side| == |path| + 2 && side[0] && !side[|path| + 1] && flow == Cut(network, side);
    forall i, j | 0 <= i < |path| + 2 && 0 <= j < |path| + 2 && side[i] && !side[j]
      ensures network[i][j] < infinity
    {
      CrossingAtMostCut(network, side, i, j);
    }
  }

  /**
   * Maximum number of bunnies per time step from `entrances` to `exits`.
   * The unbounded capacity of the virtual edges is represented by an integer
   * exceeding the sum of all corridor capacities.
   */
  method Solution(entrances: seq<int>, exits: seq<int>, path: seq<seq<int>>)
    returns (flow: int, ghost network: seq<seq<int>>, ghost residual: seq<seq<int>>)
    requires IsSquare(path) && NonNegative(path)
    requires forall s :: s in entrances ==> 0 <= s < |path|
    requires forall t :: t in exits ==> 0 <= t < |path|
    requires forall s :: s in entrances ==> s !in exits
    ensures IsSupergraph(network, entrances, exits, path, TotalCapacity(path) + 1)
    ensures FlowOutcome(network, residual, 0, |path| + 1, flow)
    ensures flow >= 0
    ensures IsMaxFlow(network, 0, |path| + 1, flow)
    ensures exists side :: |side| == |path| + 2 && side[0] && !side[|path| + 1] && flow == Cut(network, side)
                           && forall i, j :: 0 <= i < |path| + 2 && 0 <= j < |path| + 2 && side[i] && !side[j] ==>
                                               network[i][j] <= TotalCapacity(path)
    ensures flow <= EntranceCapacity(path, entrances, |path|)
    ensures flow <= ExitCapacity(path, exits, |path|)
  {
    var infinity := TotalCapacity(path) + 1;
    TotalCapacityNonNegative(path);
    var graph := AddSupersourceAndSupersink(entrances, exits, path, infinity);
    network := Matrix(graph);
    SupergraphNonNegative(network, entrances, exits, path, infinity);
    flow := EdmondsKarp(graph, 0, graph.Length0 - 1);
    residual := Matrix(graph);
    NetworkBounds(network, residual, entrances, exits, path, infinity, flow);
  }

  // ---------------------------------------------------------------------------
  // The official cases

  /** The sums of rows of four, six and eight entries, written out. */
  lemma Sum4(s: seq<int>)
    requires |s| == 4
    ensures Sum(s) == s[0] + s[1] + s[2] + s[3]
  {
    assert s[..0] == [] && s[..4] == s;
    SumPrefix(s, 1); SumPrefix(s, 2); SumPrefix(s, 3); SumPrefix(s, 4);
  }

  lemma Sum6(s: seq<int>)
    requires |s| == 6
    ensures Sum(s) == s[0] + s[1] + s[2] + s[3] + s[4] + s[5]
  {
    assert s[..0] == [] && s[..6] == s;
    SumPrefix(s, 1); SumPrefix(s, 2); SumPrefix(s, 3); SumPrefix(s, 4); SumPrefix(s, 5); SumPrefix(s, 6);
  }

  lemma Sum8(s: seq<int>)
    requires |s| == 8
    ensures Sum(s) == s[0] + s[1] + s[2] + s[3] + s[4] + s[5] + s[6] + s[7]
  {
    assert s[..0] == [] && s[..8] == s;
    SumPrefix(s, 1); SumPrefix(s, 2); SumPrefix(s, 3); SumPrefix(s, 4);
    SumPrefix(s, 5); SumPrefix(s, 6); SumPrefix(s, 7); SumPrefix(s, 8);
  }

  /** The first official case: rooms 0 → 1 → 2 → 3 → 0 in a ring, entrance 0 and exit 3. */
  function RingPath(): seq<seq<int>>
  {
    [[0, 7, 0, 0], [0, 0, 6, 0], [0, 0, 0, 8], [9, 0, 0, 0]]
  }

  function RingNetwork(): seq<seq<int>>
  {
    [[0, 31, 0, 0, 0, 0],
     [0, 0, 7, 0, 0, 0],
     [0, 0, 0, 6, 0, 0],
     [0, 0, 0, 0, 8, 0],
     [0, 9, 0, 0, 0, 31],
     [0, 0, 0, 0, 0, 0]]
  }

  /** Six bunnies pushed around the ring, as a residual network. */
  function RingResidual(): seq<seq<int>>
  {
    [[0, 25, 0, 0, 0, 0],
     [6, 0, 1, 0, 0, 0],
     [0, 6, 0, 0, 0, 0],
     [0, 0, 6, 0, 2, 0],
     [0, 9, 0, 6, 0, 25],
     [0, 0, 0, 0, 6, 0]]
  }

  lemma RingBuilt()
    ensures TotalCapacity(RingPath()) + 1 == 31
    ensures IsSupergraph(RingNetwork(), [0], [3], RingPath(), 31)
  {
    var p := RingPath();
    assert p[..0] == [] && p[..4] == p;
    TotalCapacityPrefix(p, 1); TotalCapacityPrefix(p, 2); TotalCapacityPrefix(p, 3); TotalCapacityPrefix(p, 4);
    Sum4(p[0]); Sum4(p[1]); Sum4(p[2]); Sum4(p[3]);
  }

  /** Only the corridor from room 1 to room 2 leaves the supersource, room 0 and room 1. */
  lemma RingCut()
    ensures Cut(RingNetwork(), [true, true, true, false, false, false]) == 6
  {
  }

  lemma RingRowSums()
    ensures Sum(RingResidual()[0]) == Sum(RingNetwork()[0]) - 6 && Sum(RingResidual()[5]) == Sum(RingNetwork()[5]) + 6
    ensures Sum(RingResidual()[1]) == Sum(RingNetwork()[1]) && Sum(RingResidual()[2]) == Sum(RingNetwork()[2])
    ensures Sum(RingResidual()[3]) == Sum(RingNetwork()[3]) && Sum(RingResidual()[4]) == Sum(RingNetwork()[4])
  {
    var m0, m := RingNetwork(), RingResidual();
    Sum6(m0[0]); Sum6(m0[1]); Sum6(m0[2]); Sum6(m0[3]); Sum6(m0[4]); Sum6(m0[5]);
    Sum6(m[0]); Sum6(m[1]); Sum6(m[2]); Sum6(m[3]); Sum6(m[4]); Sum6(m[5]);
  }

  lemma RingPushed()
    ensures FlowSoFar(RingNetwork(), RingResidual(), 0, 5, 6)
  {
    var m0, m := RingNetwork(), RingResidual();
    RingRowSums();
    RingPairSums();
    forall r | 0 <= r < 6 && r != 0 && r != 5 ensures Sum(m[r]) == Sum(m0[r]) {
      if r == 1 {} else if r == 2 {} else if r == 3 {} else {}
    }
  }

  lemma RingPairSums()
    ensures PairSumsKept(RingNetwork(), RingResidual()) && NonNegative(RingResidual())
  {
    var m0, m := RingNetwork(), RingResidual();
    forall i, j | 0 <= i < 6 && 0 <= j < 6 ensures m[i][j] + m[j][i] == m0[i][j] + m0[j][i] && m[i][j] >= 0 {
      if i == 0 {} else if i == 1 {} else if i == 2 {} else if i == 3 {} else if i == 4 {} else {}
    }
  }

  /** The first official case gives 6. */
  lemma SixBunnies(flow: int, network: seq<seq<int>>, residual: seq<seq<int>>)
    requires IsSupergraph(network, [0], [3], RingPath(), TotalCapacity(RingPath()) + 1)
    requires FlowOutcome(network, residual, 0, 5, flow) && IsMaxFlow(network, 0, 5, flow)
    ensures flow == 6
  {
    RingBuilt();
    SupergraphUnique(network, RingNetwork(), [0], [3], RingPath(), 31);
    RingCut();
    FlowAcrossCut(network, residual, 0, 5, flow, [true, true, true, false, false, false]);
    RingPushed();
  }

  /** The second official case: entrances 0 and 1, middle rooms 2 and 3, exits 4 and 5. */
  function LayeredPath(): seq<seq<int>>
  {
    [[0, 0, 4, 6, 0, 0],
     [0, 0, 5, 2, 0, 0],
     [0, 0, 0, 0, 4, 4],
     [0, 0, 0, 0, 6, 6],
     [0, 0, 0, 0, 0, 0],
     [0, 0, 0, 0, 0, 0]]
  }

  function LayeredNetwork(): seq<seq<int>>
  {
    [[0, 38, 38, 0, 0, 0, 0, 0],
     [0, 0, 0, 4, 6, 0, 0, 0],
     [0, 0, 0, 5, 2, 0, 0, 0],
     [0, 0, 0, 0, 0, 4, 4, 0],
     [0, 0, 0, 0, 0, 6, 6, 0],
     [0, 0, 0, 0, 0, 0, 0, 38],
     [0, 0, 0, 0, 0, 0, 0, 38],
     [0, 0, 0, 0, 0, 0, 0, 0]]
  }

  /** Sixteen bunnies through the middle rooms, as a residual network. */
  function LayeredResidual(): seq<seq<int>>
  {
    [[0, 28, 32, 0, 0, 0, 0, 0],
     [10, 0, 0, 0, 0, 0, 0, 0],
     [6, 0, 0, 1, 0, 0, 0, 0],
     [0, 4, 4, 0, 0, 0, 0, 0],
     [0, 6, 2, 0, 0, 4, 0, 0],
     [0, 0, 0, 4, 2, 0, 0, 32],
     [0, 0, 0, 4, 6, 0, 0, 28],
     [0, 0, 0, 0, 0, 6, 10, 0]]
  }

  lemma LayeredCapacity()
    ensures TotalCapacity(LayeredPath()) == 37
  {
    var p := LayeredPath();
    assert p[..0] == [] && p[..6] == p;
    TotalCapacityPrefix(p, 1); TotalCapacityPrefix(p, 2); TotalCapacityPrefix(p, 3);
    TotalCapacityPrefix(p, 4); TotalCapacityPrefix(p, 5); TotalCapacityPrefix(p, 6);
    Sum6(p[0]); Sum6(p[1]); Sum6(p[2]); Sum6(p[3]); Sum6(p[4]); Sum6(p[5]);
  }

  lemma LayeredBuilt()
    ensures IsSupergraph(LayeredNetwork(), [0, 1], [4, 5], LayeredPath(), 38)
  {
  }

  /** Cutting in front of room 3 and behind room 2 crosses capacities 6 + 2 + 4 + 4. */
  lemma LayeredCut()
    ensures Cut(LayeredNetwork(), [true, true, true, true, false, false, false, false]) == 16
  {
    var m, side := LayeredNetwork(), [true, true, true, true, false, false, false, false];
    assert RowBlock(m, side, true, false, 1, 8) == 0;
    assert RowBlock(m, side, true, false, 2, 8) == 6;
    assert RowBlock(m, side, true, false, 3, 8) == 8;
    assert RowBlock(m, side, true, false, 4, 8) == 16;
    assert RowBlock(m, side, true, false, 8, 8) == 16;
  }

  lemma LayeredRowSums()
    ensures Sum(LayeredResidual()[0]) == Sum(LayeredNetwork()[0]) - 16 && Sum(LayeredResidual()[7]) == Sum(LayeredNetwork()[7]) + 16
    ensures Sum(LayeredResidual()[1]) == Sum(LayeredNetwork()[1]) && Sum(LayeredResidual()[2]) == Sum(LayeredNetwork()[2])
    ensures Sum(LayeredResidual()[3]) == Sum(LayeredNetwork()[3]) && Sum(LayeredResidual()[4]) == Sum(LayeredNetwork()[4])
    ensures Sum(LayeredResidual()[5]) == Sum(LayeredNetwork()[5]) && Sum(LayeredResidual()[6]) == Sum(LayeredNetwork()[6])
  {
    var m0, m := LayeredNetwork(), LayeredResidual();
    Sum8(m0[0]); Sum8(m0[1]); Sum8(m0[2]); Sum8(m0[3]); Sum8(m0[4]); Sum8(m0[5]); Sum8(m0[6]); Sum8(m0[7]);
    Sum8(m[0]); Sum8(m[1]); Sum8(m[2]); Sum8(m[3]); Sum8(m[4]); Sum8(m[5]); Sum8(m[6]); Sum8(m[7]);
  }

  lemma LayeredPairRow(i: int)
    requires 0 <= i < 8
    ensures forall j :: 0 <= j < 8 ==>
      LayeredResidual()[i][j] + LayeredResidual()[j][i] == LayeredNetwork()[i][j] + LayeredNetwork()[j][i]
      && LayeredResidual()[i][j] >= 0
  {
    if i == 0 {} else if i == 1 {} else if i == 2 {} else if i == 3 {}
    else if i == 4 {} else if i == 5 {} else if i == 6 {} else {}
  }

  lemma LayeredPairSums()
    ensures PairSumsKept(LayeredNetwork(), LayeredResidual()) && NonNegative(LayeredResidual())
  {
    forall i | 0 <= i < 8 ensures forall j :: 0 <= j < 8 ==>
      LayeredResidual()[i][j] + LayeredResidual()[j][i] == LayeredNetwork()[i][j] + LayeredNetwork()[j][i]
      && LayeredResidual()[i][j] >= 0
    {
      LayeredPairRow(i);
    }
  }

  lemma LayeredPushed()
    ensures FlowSoFar(LayeredNetwork(), LayeredResidual(), 0, 7, 16)
  {
    var m0, m := LayeredNetwork(), LayeredResidual();
    LayeredRowSums();
    LayeredPairSums();
    forall r | 0 <= r < 8 && r != 0 && r != 7 ensures Sum(m[r]) == Sum(m0[r]) {
      if r == 1 {} else if r == 2 {} else if r == 3 {} else if r == 4 {} else if r == 5 {} else {}
    }
  }

  /** The second official case gives 16. */
  lemma SixteenBunnies(flow: int, network: seq<seq<int>>, residual: seq<seq<int>>)
    requires IsSupergraph(network, [0, 1], [4, 5], LayeredPath(), TotalCapacity(LayeredPath()) + 1)
    requires FlowOutcome(network, residual, 0, 7, flow) && IsMaxFlow(network, 0, 7, flow)
    ensures flow == 16
  {
    LayeredCapacity();
    LayeredBuilt();
    SupergraphUnique(network, LayeredNetwork(), [0, 1], [4, 5], LayeredPath(), 38);
    LayeredCut();
    FlowAcrossCut(network, residual, 0, 7, flow, [true, true, true, true, false, false, false, false]);
    LayeredPushed();
  }
}
