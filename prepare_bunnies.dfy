/**
 * Prepare the Bunnies' Escape, final version: a breadth-first search from
 * the top-left to the bottom-right cell that may pass through at most
 * `numWalls` walls. Each cell remembers the fewest walls with which it was
 * last queued, and a neighbour is queued again only with no more walls.
 */
module PrepareTheBunniesEscape {
  import opened Common
  import opened Grid

  /** A queued search state: where, how many walls so far before `cell`, how many steps. */
  datatype State = State(cell: Cell, walls: int, steps: int)

  /**
   * How a search ends: the length (in cells) of the escape route found, an
   * empty queue (Python's `None`), or the step budget spent first.
   */
  datatype Outcome = Escaped(length: int) | Trapped | Unfinished

  /**
   * Each queued state has a walk from `start` to its cell with one more cell
   * than its step count, and its wall count plus the walls of its own cell is
   * the number of walls on that walk.
   */
  ghost predicate Witnessed(grid: seq<seq<int>>, start: Cell, queue: seq<State>, walks: seq<seq<Cell>>)
  {
    |walks| == |queue|
    && forall i :: 0 <= i < |queue| ==>
         IsGridWalk(grid, walks[i], start, queue[i].cell) && |walks[i]| == queue[i].steps + 1
         && WallCount(grid, walks[i]) == queue[i].walls + if IsWall(grid, queue[i].cell) then 1 else 0
  }

  /** The queue is popped from the right: steps never increase from left to right and span at most one level. */
  ghost predicate Levelled(queue: seq<State>, popped: int)
  {
    (forall i, j :: 0 <= i < j < |queue| ==> queue[i].steps >= queue[j].steps)
    && forall i :: 0 <= i < |queue| ==> popped <= queue[i].steps <= popped + 1
  }

  /** The recorded wall counts: one row per grid row, as long as that row. */
  ghost predicate Shaped(grid: seq<seq<int>>, counts: seq<seq<int>>)
  {
    |counts| == |grid| && forall r :: 0 <= r < |grid| ==> |counts[r]| == |grid[r]|
  }

  /** Every cell of `adjacent` indexes `counts`. */
  predicate Fits(counts: seq<seq<int>>, adjacent: seq<Cell>)
  {
    forall j :: 0 <= j < |adjacent| ==> 0 <= adjacent[j].row < |counts| && 0 <= adjacent[j].col < |counts[adjacent[j].row]|
  }

  /**
   * The states queued for the first `n` neighbours in `adjacent` of a state
   * that leaves its cell having passed `wallCount` walls: every neighbour
   * whose recorded count is not below `wallCount`, `steps` steps from the
   * start, the one queued last on the left.
   */
  function Admitted(counts: seq<seq<int>>, adjacent: seq<Cell>, n: nat, wallCount: int, steps: int): seq<State>
    requires n <= |adjacent|
    requires Fits(counts, adjacent)
  {
    if n == 0 then []
    else
      var c := adjacent[n - 1];
      (if wallCount <= counts[c.row][c.col] then [State(c, wallCount, steps)] else [])
      + Admitted(counts, adjacent, n - 1, wallCount, steps)
  }

  /**
   * The states queued for the first `n` neighbours are exactly those of the
   * neighbours whose recorded count is not below `wallCount`, each with
   * `wallCount` walls.
   */
  lemma {:induction false} AdmittedMembers(counts: seq<seq<int>>, adjacent: seq<Cell>, n: nat, wallCount: int, steps: int)
    requires n <= |adjacent|
    requires Fits(counts, adjacent)
    ensures forall s :: s in Admitted(counts, adjacent, n, wallCount, steps) <==>
              s.cell in adjacent[..n] && s.walls == wallCount && s.steps == steps && wallCount <= counts[s.cell.row][s.cell.col]
  {
    if n > 0 {
      AdmittedMembers(counts, adjacent, n - 1, wallCount, steps);
      assert adjacent[..n] == adjacent[..n - 1] + [adjacent[n - 1]];
    }
  }

  /** Handling the next neighbour pushes its state, when admitted, in front of the queue. */
  lemma AdmitNext(counts: seq<seq<int>>, adjacent: seq<Cell>, i: nat, wallCount: int, steps: int,
                  queue: seq<State>, queue': seq<State>)
    requires i < |adjacent|
    requires Fits(counts, adjacent)
    requires queue' == Admitted(counts, adjacent, i, wallCount, steps) + queue
    ensures var next := adjacent[i];
            if wallCount <= counts[next.row][next.col]
            then [State(next, wallCount, steps)] + queue' == Admitted(counts, adjacent, i + 1, wallCount, steps) + queue
            else queue' == Admitted(counts, adjacent, i + 1, wallCount, steps) + queue
  {
    var next := adjacent[i];
    if wallCount <= counts[next.row][next.col] {
      Regroup([State(next, wallCount, steps)], Admitted(counts, adjacent, i, wallCount, steps), queue);
    }
  }

  /** The visits of a joined queue are those of its parts. */
  lemma VisitsJoin(front: seq<State>, back: seq<State>)
    ensures Visits(front + back) == Visits(front) + Visits(back)
  {
    forall v | v in Visits(front + back)
      ensures v in Visits(front) + Visits(back)
    {
      var s :| s in front + back && v == Visit(s.cell, s.walls);
    }
  }

  /** A non-empty queue is its front part followed by its last state. */
  lemma SplitLast(queue: seq<State>)
    requires queue != []
    ensures queue == queue[..|queue| - 1] + [queue[|queue| - 1]]
  {
  }

  /**
   * `counts'` is `counts` after handling the neighbours `adjacent` of a state
   * leaving with `wallCount` walls: each admitted one records `wallCount`.
   */
  ghost predicate RecordedFor(grid: seq<seq<int>>, counts: seq<seq<int>>, counts': seq<seq<int>>,
                              adjacent: seq<Cell>, wallCount: int)
  {
    Shaped(grid, counts) && Shaped(grid, counts')
    && forall c :: InBounds(grid, c) ==>
         counts'[c.row][c.col] == if c in adjacent && wallCount <= counts[c.row][c.col] then wallCount else counts[c.row][c.col]
  }

  /** Handling one more neighbour, not handled before, records its count when it is admitted. */
  lemma RecordNext(grid: seq<seq<int>>, counts: seq<seq<int>>, counts': seq<seq<int>>,
                   adjacent: seq<Cell>, i: nat, wallCount: int)
    requires i < |adjacent| && InBounds(grid, adjacent[i])
    requires forall j :: 0 <= j < i ==> adjacent[j] != adjacent[i]
    requires RecordedFor(grid, counts, counts', adjacent[..i], wallCount)
    ensures var next := adjacent[i];
            counts'[next.row][next.col] == counts[next.row][next.col]
            && RecordedFor(grid, counts,
                           if wallCount <= counts[next.row][next.col]
                           then counts'[next.row := counts'[next.row][next.col := wallCount]] else counts',
                           adjacent[..i + 1], wallCount)
  {
    assert adjacent[..i + 1] == adjacent[..i] + [adjacent[i]];
  }

  /** A popped state: its cell and the walls passed before it. */
  datatype Visit = Visit(cell: Cell, walls: int)

  /** The walls passed on leaving the visited cell. */
  ghost function Out(grid: seq<seq<int>>, v: Visit): int
    requires InBounds(grid, v.cell)
  {
    v.walls + if IsWall(grid, v.cell) then 1 else 0
  }

  ghost function Visits(queue: seq<State>): set<Visit>
  {
    set s | s in queue :: Visit(s.cell, s.walls)
  }

  /**
   * What the search has established once the visits in `done` are popped and
   * handled: `best` maps each cell queued so far to the fewest walls it was
   * queued with, and that visit is still queued or done; a recorded count
   * below the allowance means the cell was queued; each done visit has
   * brought its neighbours' recorded counts down to the walls it leaves
   * with, and queued them when that is within the allowance; and a done
   * visit of `end` arrived with too many walls.
   */
  ghost predicate Explored(grid: seq<seq<int>>, numWalls: int, end: Cell, counts: seq<seq<int>>,
                           queue: seq<State>, best: map<Cell, int>, done: set<Visit>)
  {
    Reached(grid, numWalls, counts, best)
    && Pending(grid, counts, queue, best, done)
    && Closed(grid, numWalls, end, counts, best, done)
  }

  /** Every cell whose recorded count is under the allowance has been queued. */
  ghost predicate Reached(grid: seq<seq<int>>, numWalls: int, counts: seq<seq<int>>, best: map<Cell, int>)
  {
    Shaped(grid, counts)
    && forall x :: InBounds(grid, x) && counts[x.row][x.col] < numWalls ==> x in best
  }

  /** The best visit of each queued cell is still queued or already handled, and is recorded. */
  ghost predicate Pending(grid: seq<seq<int>>, counts: seq<seq<int>>, queue: seq<State>,
                          best: map<Cell, int>, done: set<Visit>)
  {
    Shaped(grid, counts)
    && forall x :: x in best ==>
      InBounds(grid, x) && (best[x] <= counts[x.row][x.col] || best[x] <= 0)
      && (Visit(x, best[x]) in done || Visit(x, best[x]) in Visits(queue))
  }

  /**
   * Each handled visit has recorded its neighbours no worse than it leaves
   * them, queued them when it left within the allowance, and was not an
   * escape.
   */
  ghost predicate Closed(grid: seq<seq<int>>, numWalls: int, end: Cell, counts: seq<seq<int>>,
                         best: map<Cell, int>, done: set<Visit>)
  {
    Shaped(grid, counts)
    && forall v :: v in done ==>
      InBounds(grid, v.cell) && (v.cell == end ==> Out(grid, v) > numWalls)
      && forall x :: InBounds(grid, x) && Adjacent(x, v.cell) ==>
           counts[x.row][x.col] <= Out(grid, v) && (Out(grid, v) <= numWalls ==> x in best)
  }

  /** `best` after queuing `adjacent`: a queued cell keeps the smaller of its old and new wall counts. */
  ghost function Lower(best: map<Cell, int>, counts: seq<seq<int>>, adjacent: seq<Cell>, wallCount: int): (best': map<Cell, int>)
    requires Fits(counts, adjacent)
    ensures forall x :: x in best ==> x in best' && best'[x] <= best[x]
  {
    map x | x in best.Keys + (set c | c in adjacent) && (x in best || wallCount <= counts[x.row][x.col]) ::
      if x in adjacent && wallCount <= counts[x.row][x.col] && (x !in best || wallCount < best[x]) then wallCount
      else best[x]
  }

  /** Handling one popped state keeps the search's bookkeeping. */
  lemma ExploreStep(grid: seq<seq<int>>, numWalls: int, end: Cell, counts: seq<seq<int>>, counts': seq<seq<int>>,
                    rest: seq<State>, current: State, wallCount: int, queue': seq<State>,
                    best: map<Cell, int>, done: set<Visit>)
    requires Rectangular(grid) && InBounds(grid, current.cell)
    requires Explored(grid, numWalls, end, counts, rest + [current], best, done)
    requires wallCount == Out(grid, Visit(current.cell, current.walls))
    requires current.cell == end ==> wallCount > numWalls
    requires RecordedFor(grid, counts, counts', Neighbors(grid, current.cell), wallCount)
    requires queue' == Admitted(counts, Neighbors(grid, current.cell), |Neighbors(grid, current.cell)|, wallCount, current.steps + 1) + rest
    ensures Explored(grid, numWalls, end, counts', queue', Lower(best, counts, Neighbors(grid, current.cell), wallCount),
                     done + {Visit(current.cell, current.walls)})
  {
    var adjacent := Neighbors(grid, current.cell);
    var best' := Lower(best, counts, adjacent, wallCount);
    ReachedStep(grid, numWalls, counts, counts', adjacent, wallCount, best);
    PendingStep(grid, counts, counts', rest, current, wallCount, queue', best, done);
    ClosedStep(grid, numWalls, end, counts, counts', current, wallCount, best, done);
  }

  lemma ReachedStep(grid: seq<seq<int>>, numWalls: int, counts: seq<seq<int>>, counts': seq<seq<int>>,
                    adjacent: seq<Cell>, wallCount: int, best: map<Cell, int>)
    requires Fits(counts, adjacent)
    requires RecordedFor(grid, counts, counts', adjacent, wallCount)
    requires Reached(grid, numWalls, counts, best)
    ensures Reached(grid, numWalls, counts', Lower(best, counts, adjacent, wallCount))
  {
  }

  lemma PendingStep(grid: seq<seq<int>>, counts: seq<seq<int>>, counts': seq<seq<int>>,
                    rest: seq<State>, current: State, wallCount: int, queue': seq<State>,
                    best: map<Cell, int>, done: set<Visit>)
    requires Rectangular(grid) && InBounds(grid, current.cell)
    requires RecordedFor(grid, counts, counts', Neighbors(grid, current.cell), wallCount)
    requires Pending(grid, counts, rest + [current], best, done)
    requires queue' == Admitted(counts, Neighbors(grid, current.cell), |Neighbors(grid, current.cell)|, wallCount, current.steps + 1) + rest
    ensures Pending(grid, counts', queue', Lower(best, counts, Neighbors(grid, current.cell), wallCount),
                    done + {Visit(current.cell, current.walls)})
  {
    var adjacent := Neighbors(grid, current.cell);
    var best' := Lower(best, counts, adjacent, wallCount);
    var done' := done + {Visit(current.cell, current.walls)};
    VisitsJoin(rest, [current]);
    VisitsJoin(Admitted(counts, adjacent, |adjacent|, wallCount, current.steps + 1), rest);
    AdmittedMembers(counts, adjacent, |adjacent|, wallCount, current.steps + 1);
    assert adjacent[..|adjacent|] == adjacent;
    forall x | x in best'
      ensures InBounds(grid, x) && (best'[x] <= counts'[x.row][x.col] || best'[x] <= 0)
      ensures Visit(x, best'[x]) in done' || Visit(x, best'[x]) in Visits(queue')
    {
      if x in adjacent && wallCount <= counts[x.row][x.col] {
        assert State(x, wallCount, current.steps + 1) in queue';
      }
    }
  }

  lemma ClosedStep(grid: seq<seq<int>>, numWalls: int, end: Cell, counts: seq<seq<int>>, counts': seq<seq<int>>,
                   current: State, wallCount: int, best: map<Cell, int>, done: set<Visit>)
    requires Rectangular(grid) && InBounds(grid, current.cell)
    requires wallCount == Out(grid, Visit(current.cell, current.walls))
    requires current.cell == end ==> wallCount > numWalls
    requires RecordedFor(grid, counts, counts', Neighbors(grid, current.cell), wallCount)
    requires Reached(grid, numWalls, counts, best)
    requires Closed(grid, numWalls, end, counts, best, done)
    ensures Closed(grid, numWalls, end, counts', Lower(best, counts, Neighbors(grid, current.cell), wallCount),
                   done + {Visit(current.cell, current.walls)})
  {
  }

  /**
   * With nothing left queued, each cell of a walk from the corner that stays
   * within the allowance was queued with no more walls than the walk passes
   * before reaching it.
   */
  lemma {:induction false} QueuedAlong(grid: seq<seq<int>>, numWalls: int, end: Cell, counts: seq<seq<int>>,
                                       best: map<Cell, int>, done: set<Visit>, w: seq<Cell>, i: nat)
    requires Explored(grid, numWalls, end, counts, [], best, done)
    requires Cell(0, 0) in best && best[Cell(0, 0)] <= 0
    requires IsGridWalk(grid, w, Cell(0, 0), end) && i < |w|
    ensures WallCount(grid, w[..i + 1]) <= numWalls ==> w[i] in best && best[w[i]] <= WallCount(grid, w[..i])
    decreases i
  {
    assert w[..i + 1][..i] == w[..i];
    assert WallCount(grid, w[..i + 1]) == WallCount(grid, w[..i]) + if IsWall(grid, w[i]) then 1 else 0;
    if i > 0 && WallCount(grid, w[..i + 1]) <= numWalls {
      QueuedAlong(grid, numWalls, end, counts, best, done, w, i - 1);
      assert w[..i][..i - 1] == w[..i - 1];
      var v := Visit(w[i - 1], best[w[i - 1]]);
      assert Visits([]) == {};
      assert v in done;
      assert Out(grid, v) <= WallCount(grid, w[..i]);
      assert Adjacent(w[i], w[i - 1]);
    }
  }

  /** With nothing left queued, every walk from the corner to `end` passes more walls than allowed. */
  lemma NoRouteWithin(grid: seq<seq<int>>, numWalls: int, end: Cell, counts: seq<seq<int>>,
                      best: map<Cell, int>, done: set<Visit>, w: seq<Cell>)
    requires Explored(grid, numWalls, end, counts, [], best, done)
    requires Cell(0, 0) in best && best[Cell(0, 0)] <= 0
    requires IsGridWalk(grid, w, Cell(0, 0), end)
    ensures WallCount(grid, w) > numWalls
  {
    var n := |w| - 1;
    assert w[..n + 1] == w;
    QueuedAlong(grid, numWalls, end, counts, best, done, w, n);
  }

  /** Popping the rightmost state leaves the rest witnessed, one level at most above it. */
  lemma PopState(grid: seq<seq<int>>, start: Cell, queue: seq<State>, walks: seq<seq<Cell>>, popped: int)
    requires Witnessed(grid, start, queue, walks) && Levelled(queue, popped) && queue != []
    ensures popped <= queue[|queue| - 1].steps
    ensures Witnessed(grid, start, queue[..|queue| - 1], walks[..|walks| - 1])
    ensures Levelled(queue[..|queue| - 1], queue[|queue| - 1].steps)
    ensures var last := queue[|queue| - 1]; var walk := walks[|walks| - 1];
            IsGridWalk(grid, walk, start, last.cell) && |walk| == last.steps + 1
            && WallCount(grid, walk) == last.walls + if IsWall(grid, last.cell) then 1 else 0
  {
  }

  /**
   * Breadth-first search with a wall allowance. `fuel` bounds the number of
   * states popped, since the search need not stop on every map.
   */
  method Bfs(grid: seq<seq<int>>, numWalls: int, fuel: nat) returns (outcome: Outcome)
    requires Rectangular(grid)
    ensures outcome.Escaped? ==>
      exists w :: IsGridWalk(grid, w, Cell(0, 0), End(grid)) && |w| == outcome.length && WallCount(grid, w) <= numWalls
    ensures outcome.Trapped? ==>
      forall w :: IsGridWalk(grid, w, Cell(0, 0), End(grid)) ==> WallCount(grid, w) > numWalls
  {
    var numRows := |grid|;
    var numColumns := |grid[numRows - 1]|;
    var start := Cell(0, 0);
    var end := End(grid);
    var wallCountLastVisit := seq(numRows, _ => seq(numColumns, _ => numWalls));
    var queue := [State(start, 0, 0)];
    ghost var walks := [[start]];
    ghost var popped := 0;
    ghost var best := map[start := 0];
    ghost var done: set<Visit> := {};
    assert Visits(queue) == {Visit(start, 0)};
    var remaining := fuel;
    while queue != []
      invariant Witnessed(grid, start, queue, walks)
      invariant Levelled(queue, popped)
      invariant Explored(grid, numWalls, end, wallCountLastVisit, queue, best, done)
      invariant start in best && best[start] <= 0
      decreases remaining
    {
      if remaining == 0 {
        return Unfinished;
      }
      remaining := remaining - 1;

      var current := queue[|queue| - 1];
      ghost var walk := walks[|walks| - 1];
      PopState(grid, start, queue, walks, popped);
      SplitLast(queue);
      popped := current.steps;
      queue := queue[..|queue| - 1];
      walks := walks[..|walks| - 1];

      var currentWallCount := current.walls;
      if grid[current.cell.row][current.cell.col] == 1 {
        currentWallCount := currentWallCount + 1;
      }
      if current.cell == end && currentWallCount <= numWalls {
        assert IsGridWalk(grid, walk, start, end) && |walk| == current.steps + 1;
        return Escaped(current.steps + 1);
      }

      ghost var counts := wallCountLastVisit;
      ghost var rest := queue;
      queue, wallCountLastVisit := QueueNeighbors(grid, wallCountLastVisit, current, currentWallCount, queue);
      AdmittedWitnessed(grid, start, current.cell, walk, counts, currentWallCount, rest, walks, popped);
      walks := Trails(Admitted(counts, Neighbors(grid, current.cell), |Neighbors(grid, current.cell)|,
                               currentWallCount, current.steps + 1), walk) + walks;
      ExploreStep(grid, numWalls, end, counts, wallCountLastVisit, rest, current, currentWallCount, queue, best, done);
      best := Lower(best, counts, Neighbors(grid, current.cell), currentWallCount);
      done := done + {Visit(current.cell, current.walls)};
    }
    assert queue == [];
    forall w | IsGridWalk(grid, w, start, end)
      ensures WallCount(grid, w) > numWalls
    {
      NoRouteWithin(grid, numWalls, end, wallCountLastVisit, best, done, w);
    }
    return Trapped;
  }

  /** The walks witnessing `states`, each `walk` extended by the state's cell. */
  ghost function Trails(states: seq<State>, walk: seq<Cell>): seq<seq<Cell>>
  {
    seq(|states|, i requires 0 <= i < |states| => walk + [states[i].cell])
  }

  /** The states queued for the neighbours of `here` are witnessed by `walk` extended by one step. */
  lemma AdmittedWitnessed(grid: seq<seq<int>>, start: Cell, here: Cell, walk: seq<Cell>, counts: seq<seq<int>>,
                          wallCount: int, queue: seq<State>, walks: seq<seq<Cell>>, popped: int)
    requires Rectangular(grid) && InBounds(grid, here) && Shaped(grid, counts)
    requires IsGridWalk(grid, walk, start, here) && |walk| == popped + 1 && WallCount(grid, walk) == wallCount
    requires Witnessed(grid, start, queue, walks) && Levelled(queue, popped)
    ensures var added := Admitted(counts, Neighbors(grid, here), |Neighbors(grid, here)|, wallCount, popped + 1);
            Witnessed(grid, start, added + queue, Trails(added, walk) + walks) && Levelled(added + queue, popped)
  {
    var adjacent := Neighbors(grid, here);
    var added := Admitted(counts, adjacent, |adjacent|, wallCount, popped + 1);
    var trails := Trails(added, walk);
    AdmittedMembers(counts, adjacent, |adjacent|, wallCount, popped + 1);
    assert adjacent[..|adjacent|] == adjacent;
    forall i | 0 <= i < |added|
      ensures IsGridWalk(grid, trails[i], start, added[i].cell) && |trails[i]| == added[i].steps + 1
      ensures WallCount(grid, trails[i]) == added[i].walls + if IsWall(grid, added[i].cell) then 1 else 0
      ensures added[i].steps == popped + 1
    {
      assert added[i] in added;
      ExtendWalk(grid, walk, start, here, added[i].cell);
    }
    WitnessedJoin(grid, start, added, trails, queue, walks);
    LevelledJoin(added, queue, popped);
  }

  lemma WitnessedJoin(grid: seq<seq<int>>, start: Cell, front: seq<State>, trails: seq<seq<Cell>>,
                      queue: seq<State>, walks: seq<seq<Cell>>)
    requires Witnessed(grid, start, front, trails) && Witnessed(grid, start, queue, walks)
    ensures Witnessed(grid, start, front + queue, trails + walks)
  {
    forall i | 0 <= i < |front| + |queue|
      ensures IsGridWalk(grid, (trails + walks)[i], start, (front + queue)[i].cell)
      ensures |(trails + walks)[i]| == (front + queue)[i].steps + 1
      ensures WallCount(grid, (trails + walks)[i])
              == (front + queue)[i].walls + if IsWall(grid, (front + queue)[i].cell) then 1 else 0
    {
      if i < |front| {
        assert (trails + walks)[i] == trails[i] && (front + queue)[i] == front[i];
      } else {
        assert (trails + walks)[i] == walks[i - |front|] && (front + queue)[i] == queue[i - |front|];
      }
    }
  }

  lemma LevelledJoin(front: seq<State>, queue: seq<State>, popped: int)
    requires forall i :: 0 <= i < |front| ==> front[i].steps == popped + 1
    requires Levelled(queue, popped)
    ensures Levelled(front + queue, popped)
  {
  }

  /**
   * Queues, on the left, every neighbour of the popped state that it reaches
   * with no more walls than the neighbour's recorded count, and records the
   * popped state's count for it; every other recorded count stays.
   */
  method QueueNeighbors(grid: seq<seq<int>>, wallCountLastVisit: seq<seq<int>>, current: State, currentWallCount: int,
                        queue: seq<State>)
    returns (queue': seq<State>, wallCountLastVisit': seq<seq<int>>)
    requires Rectangular(grid) && InBounds(grid, current.cell) && Shaped(grid, wallCountLastVisit)
    ensures queue' == Admitted(wallCountLastVisit, Neighbors(grid, current.cell), |Neighbors(grid, current.cell)|,
                               currentWallCount, current.steps + 1) + queue
    ensures RecordedFor(grid, wallCountLastVisit, wallCountLastVisit', Neighbors(grid, current.cell), currentWallCount)
  {
    queue', wallCountLastVisit' := queue, wallCountLastVisit;
    var adjacent := Neighbors(grid, current.cell);
    var i := 0;
    assert adjacent[..0] == [];
    while i < |adjacent|
      invariant 0 <= i <= |adjacent|
      invariant queue' == Admitted(wallCountLastVisit, adjacent, i, currentWallCount, current.steps + 1) + queue
      invariant RecordedFor(grid, wallCountLastVisit, wallCountLastVisit', adjacent[..i], currentWallCount)
    {
      var next := adjacent[i];
      AdmitNext(wallCountLastVisit, adjacent, i, currentWallCount, current.steps + 1, queue, queue');
      RecordNext(grid, wallCountLastVisit, wallCountLastVisit', adjacent, i, currentWallCount);
      if currentWallCount <= wallCountLastVisit'[next.row][next.col] {
        wallCountLastVisit' := wallCountLastVisit'[next.row := wallCountLastVisit'[next.row][next.col := currentWallCount]];
        queue' := [State(next, currentWallCount, current.steps + 1)] + queue';
      }
      i := i + 1;
    }
    assert adjacent[..i] == adjacent;
  }

  /** The shortest escape allowing one wall to be removed. */
  method Solution(grid: seq<seq<int>>, fuel: nat) returns (outcome: Outcome)
    requires Rectangular(grid)
    ensures outcome.Escaped? ==>
      exists w :: IsGridWalk(grid, w, Cell(0, 0), End(grid)) && |w| == outcome.length && WallCount(grid, w) <= 1
    ensures outcome.Trapped? ==>
      forall w :: IsGridWalk(grid, w, Cell(0, 0), End(grid)) ==> WallCount(grid, w) > 1
  {
    var numWalls := 1;
    outcome := Bfs(grid, numWalls, fuel);
  }
}
