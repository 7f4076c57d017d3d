/**
 * Prepare the Bunnies' Escape, first attempt: a breadth-first search that
 * records, per cell, whether it was reached without passing a wall, after
 * passing one, or both ways; a cell reached both ways is never queued again.
 */
module PrepareTheBunniesEscapeFirstAttempt {
  import opened Common
  import opened Grid

  /** Traversal marks. */
  const NO_WALL := 0
  const WALL := 1
  const BOTH := 2

  /** An open search state: where, how many cells so far, whether a wall has been passed. */
  datatype Entry = Entry(cell: Cell, steps: int, beenThroughWall: bool)

  /**
   * Each open state has a walk from `start` to its cell with as many cells as
   * its step count; when the start is open floor, the walk passes exactly one
   * wall if the state says so and none otherwise.
   */
  ghost predicate Witnessed(grid: seq<seq<int>>, start: Cell, open: seq<Entry>, walks: seq<seq<Cell>>)
  {
    |walks| == |open|
    && forall i :: 0 <= i < |open| ==>
         IsGridWalk(grid, walks[i], start, open[i].cell) && |walks[i]| == open[i].steps
         && (!IsWall(grid, start) ==> WallCount(grid, walks[i]) == if open[i].beenThroughWall then 1 else 0)
  }

  /**
   * The traversal marks: every marked cell is on the map, a wall other than
   * the start is never marked NO_WALL, and `both` is the set of cells marked
   * BOTH.
   */
  ghost predicate Marked(grid: seq<seq<int>>, start: Cell, traversals: map<Cell, int>, both: set<Cell>)
  {
    start in traversals
    && (forall c :: c in traversals ==> InBounds(grid, c) && NO_WALL <= traversals[c] <= BOTH)
    && (forall c :: c in traversals && c != start && IsWall(grid, c) ==> traversals[c] != NO_WALL)
    && (forall c :: c in both <==> c in traversals && traversals[c] == BOTH)
  }

  /** Queue admissions still possible: two per unmarked cell, one per cell marked only one way. */
  ghost function Potential(grid: seq<seq<int>>, traversals: map<Cell, int>, both: set<Cell>): int
  {
    2 * |Cells(grid)| - |traversals.Keys| - |both|
  }

  lemma PotentialNonNegative(grid: seq<seq<int>>, start: Cell, traversals: map<Cell, int>, both: set<Cell>)
    requires Marked(grid, start, traversals, both)
    ensures Potential(grid, traversals, both) >= 0
  {
    SubsetSize(both, traversals.Keys);
    SubsetSize(traversals.Keys, Cells(grid));
  }

  /** A mark only ever stays as it is or becomes BOTH. */
  ghost predicate MarksOnlyRise(traversals: map<Cell, int>, traversals': map<Cell, int>)
  {
    forall c :: c in traversals ==> c in traversals' && (traversals'[c] == traversals[c] || traversals'[c] == BOTH)
  }

  /** Marking a cell marked one way as BOTH spends one unit of potential. */
  lemma MarkBoth(grid: seq<seq<int>>, start: Cell, traversals0: map<Cell, int>,
                 traversals: map<Cell, int>, both: set<Cell>, next: Cell)
    requires Marked(grid, start, traversals, both) && MarksOnlyRise(traversals0, traversals)
    requires next in traversals && traversals[next] in [NO_WALL, WALL]
    ensures Marked(grid, start, traversals[next := BOTH], both + {next})
    ensures MarksOnlyRise(traversals0, traversals[next := BOTH])
    ensures Potential(grid, traversals[next := BOTH], both + {next}) == Potential(grid, traversals, both) - 1
  {
    assert traversals[next := BOTH].Keys == traversals.Keys;
  }

  /** Marking a new cell spends one unit of potential. */
  lemma MarkNew(grid: seq<seq<int>>, start: Cell, traversals0: map<Cell, int>,
                traversals: map<Cell, int>, both: set<Cell>, next: Cell, mark: int)
    requires Marked(grid, start, traversals, both) && MarksOnlyRise(traversals0, traversals)
    requires next !in traversals && InBounds(grid, next)
    requires mark in [NO_WALL, WALL] && (IsWall(grid, next) ==> mark == WALL)
    ensures Marked(grid, start, traversals[next := mark], both)
    ensures MarksOnlyRise(traversals0, traversals[next := mark])
    ensures Potential(grid, traversals[next := mark], both) == Potential(grid, traversals, both) - 1
  {
    assert traversals[next := mark].Keys == traversals.Keys + {next};
  }

  /** The mark that records a state's flag. */
  function FlagMark(throughWall: bool): int
  {
    if throughWall then WALL else NO_WALL
  }

  /**
   * The mark `next` gets when reached by a state whose flag is `throughWall`,
   * when it is queued; None when it is skipped. A cell marked the other way
   * becomes BOTH; an unmarked cell is marked WALL if it is a wall and by the
   * flag otherwise, unless it is a wall reached after a wall.
   */
  function NewMark(traversals: map<Cell, int>, next: Cell, wall: bool, throughWall: bool): Option<int>
  {
    if next in traversals && (traversals[next] == NO_WALL || traversals[next] == WALL) then
      if traversals[next] != FlagMark(throughWall) then Some(BOTH) else None
    else if next !in traversals then
      if wall && throughWall then None
      else Some(if wall then WALL else FlagMark(throughWall))
    else None
  }

  /** Every cell of `adjacent` is on the map. */
  ghost predicate OnMap(grid: seq<seq<int>>, adjacent: seq<Cell>)
  {
    forall j :: 0 <= j < |adjacent| ==> InBounds(grid, adjacent[j])
  }

  /**
   * The entries queued for the first `n` cells of `adjacent` when `current`
   * is popped, the one queued last on the left.
   */
  function Queued(grid: seq<seq<int>>, traversals: map<Cell, int>, adjacent: seq<Cell>, n: nat, current: Entry): seq<Entry>
    requires n <= |adjacent| && OnMap(grid, adjacent)
  {
    if n == 0 then []
    else
      var next := adjacent[n - 1];
      var wall := IsWall(grid, next);
      (if NewMark(traversals, next, wall, current.beenThroughWall).Some?
       then [Entry(next, current.steps + 1, wall || current.beenThroughWall)] else [])
      + Queued(grid, traversals, adjacent, n - 1, current)
  }

  /**
   * The entries queued for the first `n` neighbours are exactly those of the
   * neighbours that get a new mark, one step further, with the flag set when
   * the neighbour is a wall or a wall was passed before.
   */
  lemma {:induction false} QueuedMembers(grid: seq<seq<int>>, traversals: map<Cell, int>, adjacent: seq<Cell>,
                                         n: nat, current: Entry)
    requires n <= |adjacent| && OnMap(grid, adjacent)
    ensures forall e :: e in Queued(grid, traversals, adjacent, n, current) <==>
              e.cell in adjacent[..n] && InBounds(grid, e.cell) && e.steps == current.steps + 1
              && e.beenThroughWall == (IsWall(grid, e.cell) || current.beenThroughWall)
              && NewMark(traversals, e.cell, IsWall(grid, e.cell), current.beenThroughWall).Some?
  {
    if n > 0 {
      QueuedMembers(grid, traversals, adjacent, n - 1, current);
      assert adjacent[..n] == adjacent[..n - 1] + [adjacent[n - 1]];
    }
  }

  /**
   * `traversals'` is `traversals` after handling the neighbours `adjacent`
   * of a state whose flag is `throughWall`: each cell's new mark, if any,
   * and every other mark as it was.
   */
  ghost predicate MarkedFor(grid: seq<seq<int>>, traversals: map<Cell, int>, traversals': map<Cell, int>,
                            adjacent: seq<Cell>, throughWall: bool)
  {
    forall c :: InBounds(grid, c) ==> MarkedCell(grid, traversals, traversals', adjacent, throughWall, c)
  }

  /** The mark of one cell `c` on the map after handling the neighbours `adjacent`. */
  ghost predicate MarkedCell(grid: seq<seq<int>>, traversals: map<Cell, int>, traversals': map<Cell, int>,
                             adjacent: seq<Cell>, throughWall: bool, c: Cell)
    requires InBounds(grid, c)
  {
    var mark := if c in adjacent then NewMark(traversals, c, IsWall(grid, c), throughWall) else None;
    (c in traversals' <==> c in traversals || mark.Some?)
    && (c in traversals' ==> traversals'[c] == if mark.Some? then mark.value else traversals[c])
  }

  /**
   * Handling neighbour `i` extends both the queued entries and the marks
   * from the first `i` neighbours to the first `i + 1`.
   */
  lemma NeighborStep(grid: seq<seq<int>>, traversals: map<Cell, int>, traversals': map<Cell, int>,
                     traversals'': map<Cell, int>, adjacent: seq<Cell>, i: nat, current: Entry,
                     open: seq<Entry>, open': seq<Entry>, open'': seq<Entry>, admit: bool)
    requires i < |adjacent| && OnMap(grid, adjacent)
    requires forall j :: 0 <= j < i ==> adjacent[j] != adjacent[i]
    requires open' == Queued(grid, traversals, adjacent, i, current) + open
    requires MarkedFor(grid, traversals, traversals', adjacent[..i], current.beenThroughWall)
    requires var next := adjacent[i];
             var mark := NewMark(traversals', next, IsWall(grid, next), current.beenThroughWall);
             admit == mark.Some?
             && traversals'' == (if admit then traversals'[next := mark.value] else traversals')
             && open'' == if admit then [Entry(next, current.steps + 1, IsWall(grid, next) || current.beenThroughWall)] + open'
                          else open'
    ensures open'' == Queued(grid, traversals, adjacent, i + 1, current) + open
    ensures MarkedFor(grid, traversals, traversals'', adjacent[..i + 1], current.beenThroughWall)
  {
    var next := adjacent[i];
    var f := current.beenThroughWall;
    assert next !in adjacent[..i];
    assert NewMark(traversals', next, IsWall(grid, next), f) == NewMark(traversals, next, IsWall(grid, next), f);
    if admit {
      Regroup([Entry(next, current.steps + 1, IsWall(grid, next) || f)],
              Queued(grid, traversals, adjacent, i, current), open);
    }
    assert adjacent[..i + 1] == adjacent[..i] + [next];
  }

  /**
   * Handles one neighbour `next` of a state whose flag is `throughWall`:
   * sets its mark as `NewMark` says and tells whether it is to be queued.
   */
  method MarkNeighbor(grid: seq<seq<int>>, start: Cell, ghost traversals0: map<Cell, int>, traversals: map<Cell, int>,
                      ghost both: set<Cell>, next: Cell, throughWall: bool)
    returns (traversals': map<Cell, int>, ghost both': set<Cell>, admit: bool)
    requires Rectangular(grid) && InBounds(grid, next)
    requires Marked(grid, start, traversals, both) && MarksOnlyRise(traversals0, traversals)
    ensures var mark := NewMark(traversals, next, IsWall(grid, next), throughWall);
            admit == mark.Some? && traversals' == if admit then traversals[next := mark.value] else traversals
    ensures Marked(grid, start, traversals', both') && MarksOnlyRise(traversals0, traversals')
    ensures Potential(grid, traversals', both') + (if admit then 1 else 0) == Potential(grid, traversals, both)
  {
    traversals', both', admit := traversals, both, false;
    if next in traversals && traversals[next] in [NO_WALL, WALL] {
      if traversals[next] != (if throughWall then WALL else NO_WALL) {
        MarkBoth(grid, start, traversals0, traversals, both, next);
        traversals' := traversals[next := BOTH];
        both' := both + {next};
        admit := true;
      }
    } else if next !in traversals {
      if !(grid[next.row][next.col] == WALL && throughWall) {
        var mark := if grid[next.row][next.col] == WALL then WALL
                    else if throughWall then WALL else NO_WALL;
        MarkNew(grid, start, traversals0, traversals, both, next, mark);
        traversals' := traversals[next := mark];
        admit := true;
      }
    }
  }

  /**
   * Handles the neighbours of the popped state: a neighbour marked one way
   * and reached the other way is marked BOTH and queued; an unmarked
   * neighbour is marked and queued unless it is a wall and a wall has
   * already been passed. Every queued entry costs one unit of potential.
   */
  method VisitNeighbors(grid: seq<seq<int>>, start: Cell, current: Entry, open: seq<Entry>,
                        traversals: map<Cell, int>, ghost both: set<Cell>)
    returns (open': seq<Entry>, traversals': map<Cell, int>, ghost both': set<Cell>)
    requires Rectangular(grid) && InBounds(grid, current.cell) && Marked(grid, start, traversals, both)
    ensures open' == Queued(grid, traversals, Neighbors(grid, current.cell), |Neighbors(grid, current.cell)|, current) + open
    ensures MarkedFor(grid, traversals, traversals', Neighbors(grid, current.cell), current.beenThroughWall)
    ensures Marked(grid, start, traversals', both') && MarksOnlyRise(traversals, traversals')
    ensures Potential(grid, traversals', both') + |open'| <= Potential(grid, traversals, both) + |open|
  {
    open', traversals', both' := open, traversals, both;
    var adjacent := Neighbors(grid, current.cell);
    var i := 0;
    assert adjacent[..0] == [] && OnMap(grid, adjacent);
    while i < |adjacent|
      invariant 0 <= i <= |adjacent| && OnMap(grid, adjacent)
      invariant open' == Queued(grid, traversals, adjacent, i, current) + open
      invariant MarkedFor(grid, traversals, traversals', adjacent[..i], current.beenThroughWall)
      invariant Marked(grid, start, traversals', both') && MarksOnlyRise(traversals, traversals')
      invariant Potential(grid, traversals', both') + |open'| <= Potential(grid, traversals, both) + |open|
    {
      var next := adjacent[i];
      var traversals'', both'', admit := MarkNeighbor(grid, start, traversals, traversals', both', next, current.beenThroughWall);
      var open'' := open';
      if admit {
        var beenThroughWallNext := if grid[next.row][next.col] == WALL then true else current.beenThroughWall;
        open'' := [Entry(next, current.steps + 1, beenThroughWallNext)] + open';
      }
      NeighborStep(grid, traversals, traversals', traversals'', adjacent, i, current, open, open', open'', admit);
      open', traversals', both' := open'', traversals'', both'';
      i := i + 1;
      assert open' == Queued(grid, traversals, adjacent, i, current) + open;
      assert MarkedFor(grid, traversals, traversals', adjacent[..i], current.beenThroughWall);
    }
    assert adjacent[..i] == adjacent;
  }

  /** The walks witnessing `entries`, each `walk` extended by the entry's cell. */
  ghost function Trails(entries: seq<Entry>, walk: seq<Cell>): seq<seq<Cell>>
  {
    seq(|entries|, i requires 0 <= i < |entries| => walk + [entries[i].cell])
  }

  /**
   * The entries queued for the neighbours of the popped state are witnessed
   * by its walk extended by one step: with an open start, a queued wall is
   * only ever reached before any other wall.
   */
  lemma QueuedWitnessed(grid: seq<seq<int>>, start: Cell, current: Entry, walk: seq<Cell>,
                        traversals: map<Cell, int>, both: set<Cell>, open: seq<Entry>, walks: seq<seq<Cell>>)
    requires Rectangular(grid) && InBounds(grid, current.cell) && Marked(grid, start, traversals, both)
    requires IsGridWalk(grid, walk, start, current.cell) && |walk| == current.steps
    requires !IsWall(grid, start) ==> WallCount(grid, walk) == if current.beenThroughWall then 1 else 0
    requires Witnessed(grid, start, open, walks)
    ensures var queued := Queued(grid, traversals, Neighbors(grid, current.cell), |Neighbors(grid, current.cell)|, current);
            Witnessed(grid, start, queued + open, Trails(queued, walk) + walks)
  {
    var adjacent := Neighbors(grid, current.cell);
    var queued := Queued(grid, traversals, adjacent, |adjacent|, current);
    var trails := Trails(queued, walk);
    QueuedMembers(grid, traversals, adjacent, |adjacent|, current);
    assert adjacent[..|adjacent|] == adjacent;
    forall i | 0 <= i < |queued|
      ensures IsGridWalk(grid, trails[i], start, queued[i].cell) && |trails[i]| == queued[i].steps
      ensures !IsWall(grid, start) ==> WallCount(grid, trails[i]) == if queued[i].beenThroughWall then 1 else 0
    {
      var next := queued[i].cell;
      assert queued[i] in queued;
      ExtendWalk(grid, walk, start, current.cell, next);
      if !IsWall(grid, start) && IsWall(grid, next) {
        assert next != start;
      }
    }
    WitnessedJoin(grid, start, queued, trails, open, walks);
  }

  lemma WitnessedJoin(grid: seq<seq<int>>, start: Cell, front: seq<Entry>, trails: seq<seq<Cell>>,
                      open: seq<Entry>, walks: seq<seq<Cell>>)
    requires Witnessed(grid, start, front, trails) && Witnessed(grid, start, open, walks)
    ensures Witnessed(grid, start, front + open, trails + walks)
  {
    forall i | 0 <= i < |front| + |open|
      ensures IsGridWalk(grid, (trails + walks)[i], start, (front + open)[i].cell)
      ensures |(trails + walks)[i]| == (front + open)[i].steps
      ensures !IsWall(grid, start) ==>
                WallCount(grid, (trails + walks)[i]) == if (front + open)[i].beenThroughWall then 1 else 0
    {
      if i < |front| {
        assert (trails + walks)[i] == trails[i] && (front + open)[i] == front[i];
      } else {
        assert (trails + walks)[i] == walks[i - |front|] && (front + open)[i] == open[i - |front|];
      }
    }
  }

  /** A search state as the closure argument sees it: a cell and whether a wall has been passed. */
  datatype Visit = Visit(cell: Cell, throughWall: bool)

  ghost function Visits(open: seq<Entry>): set<Visit>
  {
    set e | e in open :: Visit(e.cell, e.beenThroughWall)
  }

  /** The visit's cell carries its flag's mark or BOTH. */
  ghost predicate MarkedAs(traversals: map<Cell, int>, v: Visit)
  {
    v.cell in traversals && (traversals[v.cell] == BOTH || traversals[v.cell] == FlagMark(v.throughWall))
  }

  /** A visit that can occur: on the map, and standing on a wall only after passing a wall. */
  ghost predicate Consistent(grid: seq<seq<int>>, v: Visit)
  {
    InBounds(grid, v.cell) && (IsWall(grid, v.cell) ==> v.throughWall)
  }

  /**
   * The search invariant: every possible visit whose mark is set is still
   * open or already handled; each handled visit was not at `end` and has
   * marked every neighbour it may step to with the flag it reaches it with.
   */
  ghost predicate Explored(grid: seq<seq<int>>, end: Cell, traversals: map<Cell, int>, open: seq<Entry>, done: set<Visit>)
  {
    Pending(grid, traversals, open, done) && Closed(grid, end, traversals, done)
  }

  ghost predicate Pending(grid: seq<seq<int>>, traversals: map<Cell, int>, open: seq<Entry>, done: set<Visit>)
  {
    forall v :: Consistent(grid, v) && MarkedAs(traversals, v) ==> v in done || v in Visits(open)
  }

  ghost predicate Closed(grid: seq<seq<int>>, end: Cell, traversals: map<Cell, int>, done: set<Visit>)
  {
    forall v :: v in done ==>
      InBounds(grid, v.cell) && v.cell != end
      && forall n :: InBounds(grid, n) && Adjacent(n, v.cell) && !(IsWall(grid, n) && v.throughWall) ==>
           MarkedAs(traversals, Visit(n, v.throughWall || IsWall(grid, n)))
  }

  /** Handling one popped entry keeps the search invariant, when the start is open floor. */
  lemma ExploreStep(grid: seq<seq<int>>, start: Cell, end: Cell, traversals: map<Cell, int>, traversals': map<Cell, int>,
                    both: set<Cell>, open: seq<Entry>, rest: seq<Entry>, current: Entry, open': seq<Entry>,
                    done: set<Visit>)
    requires Rectangular(grid) && InBounds(grid, current.cell) && InBounds(grid, start) && !IsWall(grid, start)
    requires Marked(grid, start, traversals, both) && current.cell != end
    requires Explored(grid, end, traversals, open, done) && open == rest + [current]
    requires MarkedFor(grid, traversals, traversals', Neighbors(grid, current.cell), current.beenThroughWall)
    requires MarksOnlyRise(traversals, traversals')
    requires open' == Queued(grid, traversals, Neighbors(grid, current.cell), |Neighbors(grid, current.cell)|, current) + rest
    ensures Explored(grid, end, traversals', open', done + {Visit(current.cell, current.beenThroughWall)})
  {
    PendingStep(grid, traversals, traversals', rest, current, open', done);
    ClosedStep(grid, start, end, traversals, traversals', both, current, done);
  }

  lemma PendingStep(grid: seq<seq<int>>, traversals: map<Cell, int>, traversals': map<Cell, int>,
                    rest: seq<Entry>, current: Entry, open': seq<Entry>, done: set<Visit>)
    requires Rectangular(grid) && InBounds(grid, current.cell)
    requires Pending(grid, traversals, rest + [current], done)
    requires MarkedFor(grid, traversals, traversals', Neighbors(grid, current.cell), current.beenThroughWall)
    requires open' == Queued(grid, traversals, Neighbors(grid, current.cell), |Neighbors(grid, current.cell)|, current) + rest
    ensures Pending(grid, traversals', open', done + {Visit(current.cell, current.beenThroughWall)})
  {
    var adjacent := Neighbors(grid, current.cell);
    var queued := Queued(grid, traversals, adjacent, |adjacent|, current);
    var done' := done + {Visit(current.cell, current.beenThroughWall)};
    VisitsJoin(rest, [current]);
    VisitsJoin(queued, rest);
    QueuedMembers(grid, traversals, adjacent, |adjacent|, current);
    assert adjacent[..|adjacent|] == adjacent;
    forall v | Consistent(grid, v) && MarkedAs(traversals', v)
      ensures v in done' || v in Visits(open')
    {
      if !MarkedAs(traversals, v) {
        var wall := IsWall(grid, v.cell);
        var e := Entry(v.cell, current.steps + 1, wall || current.beenThroughWall);
        assert e in queued;
      }
    }
  }

  lemma ClosedStep(grid: seq<seq<int>>, start: Cell, end: Cell, traversals: map<Cell, int>, traversals': map<Cell, int>,
                   both: set<Cell>, current: Entry, done: set<Visit>)
    requires Rectangular(grid) && InBounds(grid, current.cell) && InBounds(grid, start) && !IsWall(grid, start)
    requires Marked(grid, start, traversals, both) && current.cell != end
    requires Closed(grid, end, traversals, done)
    requires MarkedFor(grid, traversals, traversals', Neighbors(grid, current.cell), current.beenThroughWall)
    requires MarksOnlyRise(traversals, traversals')
    ensures Closed(grid, end, traversals', done + {Visit(current.cell, current.beenThroughWall)})
  {
    forall v, n | v in done && InBounds(grid, n) && Adjacent(n, v.cell) && !(IsWall(grid, n) && v.throughWall)
      ensures MarkedAs(traversals', Visit(n, v.throughWall || IsWall(grid, n)))
    {
    }
    var f := current.beenThroughWall;
    forall n | InBounds(grid, n) && Adjacent(n, current.cell) && !(IsWall(grid, n) && f)
      ensures MarkedAs(traversals', Visit(n, f || IsWall(grid, n)))
    {
      assert n in Neighbors(grid, current.cell);
      if IsWall(grid, n) {
        assert n != start;
      }
    }
  }

  /** The visits of a joined open list are those of its parts. */
  lemma VisitsJoin(front: seq<Entry>, back: seq<Entry>)
    ensures Visits(front + back) == Visits(front) + Visits(back)
  {
    forall v | v in Visits(front + back)
      ensures v in Visits(front) + Visits(back)
    {
      var e :| e in front + back && v == Visit(e.cell, e.beenThroughWall);
    }
  }

  /**
   * Once the open list is empty, each cell of a walk from an open start that
   * passes at most one wall is marked for the flag the walk reaches it with.
   */
  lemma {:induction false} MarkedAlong(grid: seq<seq<int>>, start: Cell, end: Cell, traversals: map<Cell, int>,
                                       done: set<Visit>, w: seq<Cell>, i: nat)
    requires Explored(grid, end, traversals, [], done)
    requires InBounds(grid, start) && !IsWall(grid, start) && MarkedAs(traversals, Visit(start, false))
    requires IsGridWalk(grid, w, start, end) && i < |w|
    ensures WallCount(grid, w[..i + 1]) <= 1 ==>
              Consistent(grid, Visit(w[i], WallCount(grid, w[..i + 1]) > 0))
              && MarkedAs(traversals, Visit(w[i], WallCount(grid, w[..i + 1]) > 0))
    decreases i
  {
    assert w[..i + 1][..i] == w[..i];
    assert WallCount(grid, w[..i + 1]) == WallCount(grid, w[..i]) + if IsWall(grid, w[i]) then 1 else 0;
    if i == 0 {
      assert w[..0] == [];
    } else if WallCount(grid, w[..i + 1]) <= 1 {
      MarkedAlong(grid, start, end, traversals, done, w, i - 1);
      assert w[..i][..i - 1] == w[..i - 1];
      var v := Visit(w[i - 1], WallCount(grid, w[..i]) > 0);
      assert Visits([]) == {};
      assert v in done;
      assert Adjacent(w[i], w[i - 1]);
    }
  }

  /** Once the open list is empty, every walk from an open start to `end` passes at least two walls. */
  lemma NoRouteWithin(grid: seq<seq<int>>, start: Cell, end: Cell, traversals: map<Cell, int>,
                      done: set<Visit>, w: seq<Cell>)
    requires Explored(grid, end, traversals, [], done)
    requires InBounds(grid, start) && !IsWall(grid, start) && MarkedAs(traversals, Visit(start, false))
    requires IsGridWalk(grid, w, start, end)
    ensures WallCount(grid, w) > 1
  {
    var n := |w| - 1;
    assert w[..n + 1] == w;
    MarkedAlong(grid, start, end, traversals, done, w, n);
    assert Visits([]) == {};
  }

  /**
   * The number of cells on the route found from `start` to `end`, passing at
   * most one wall; None when the open list runs out, and then, from an open
   * start, no such route exists.
   */
  method Bfs(grid: seq<seq<int>>, start: Cell, end: Cell) returns (steps: Option<int>)
    requires Rectangular(grid) && InBounds(grid, start)
    ensures steps.Some? ==> exists w :: IsGridWalk(grid, w, start, end) && |w| == steps.value
                                        && (!IsWall(grid, start) ==> WallCount(grid, w) <= 1)
    ensures steps.None? && !IsWall(grid, start) ==>
              forall w :: IsGridWalk(grid, w, start, end) ==> WallCount(grid, w) > 1
  {
    var open := [Entry(start, 1, false)];
    var traversals := map[start := NO_WALL];
    ghost var both: set<Cell> := {};
    ghost var walks := [[start]];
    ghost var done: set<Visit> := {};
    assert Visits(open) == {Visit(start, false)};
    PotentialNonNegative(grid, start, traversals, both);
    while open != []
      invariant Witnessed(grid, start, open, walks) && Marked(grid, start, traversals, both)
      invariant Potential(grid, traversals, both) >= 0
      invariant MarkedAs(traversals, Visit(start, false))
      invariant !IsWall(grid, start) ==> Explored(grid, end, traversals, open, done)
      decreases Potential(grid, traversals, both) + |open|
    {
      var current := open[|open| - 1];
      ghost var walk := walks[|walks| - 1];
      ghost var popped := open;
      SplitLast(open);
      PopEntry(grid, start, open, walks);
      open := open[..|open| - 1];
      walks := walks[..|walks| - 1];
      if current.cell == end {
        return Some(current.steps);
      }
      ghost var traversals0 := traversals;
      ghost var both0 := both;
      ghost var rest := open;
      open, traversals, both := VisitNeighbors(grid, start, current, open, traversals, both);
      ghost var walks' := Trails(Queued(grid, traversals0, Neighbors(grid, current.cell), |Neighbors(grid, current.cell)|,
                                        current), walk) + walks;
      ghost var done' := done + {Visit(current.cell, current.beenThroughWall)};
      VisitKeeps(grid, start, end, current, walk, traversals0, traversals, both0, popped, rest, open, walks, walks',
                 done, done');
      walks, done := walks', done';
      PotentialNonNegative(grid, start, traversals, both);
    }
    if !IsWall(grid, start) {
      forall w | IsGridWalk(grid, w, start, end)
        ensures WallCount(grid, w) > 1
      {
        NoRouteWithin(grid, start, end, traversals, done, w);
      }
    }
    return None;
  }

  /** Handling a popped entry keeps the open list witnessed and the search invariant. */
  lemma VisitKeeps(grid: seq<seq<int>>, start: Cell, end: Cell, current: Entry, walk: seq<Cell>,
                   traversals: map<Cell, int>, traversals': map<Cell, int>, both: set<Cell>,
                   popped: seq<Entry>, rest: seq<Entry>, open': seq<Entry>, walks: seq<seq<Cell>>,
                   walks': seq<seq<Cell>>, done: set<Visit>, done': set<Visit>)
    requires Rectangular(grid) && InBounds(grid, current.cell) && InBounds(grid, start)
    requires Marked(grid, start, traversals, both) && current.cell != end
    requires IsGridWalk(grid, walk, start, current.cell) && |walk| == current.steps
    requires !IsWall(grid, start) ==> WallCount(grid, walk) == if current.beenThroughWall then 1 else 0
    requires Witnessed(grid, start, rest, walks)
    requires !IsWall(grid, start) ==> Explored(grid, end, traversals, popped, done)
    requires popped == rest + [current]
    requires MarkedFor(grid, traversals, traversals', Neighbors(grid, current.cell), current.beenThroughWall)
    requires MarksOnlyRise(traversals, traversals')
    requires open' == Queued(grid, traversals, Neighbors(grid, current.cell), |Neighbors(grid, current.cell)|, current) + rest
    requires walks' == Trails(Queued(grid, traversals, Neighbors(grid, current.cell), |Neighbors(grid, current.cell)|,
                                     current), walk) + walks
    requires done' == done + {Visit(current.cell, current.beenThroughWall)}
    ensures Witnessed(grid, start, open', walks')
    ensures !IsWall(grid, start) ==> Explored(grid, end, traversals', open', done')
  {
    QueuedWitnessed(grid, start, current, walk, traversals, both, rest, walks);
    if !IsWall(grid, start) {
      ExploreStep(grid, start, end, traversals, traversals', both, popped, rest, current, open', done);
    }
  }

  /** Popping the last open entry leaves the rest witnessed and hands over the last entry's walk. */
  lemma PopEntry(grid: seq<seq<int>>, start: Cell, open: seq<Entry>, walks: seq<seq<Cell>>)
    requires Witnessed(grid, start, open, walks) && open != []
    ensures Witnessed(grid, start, open[..|open| - 1], walks[..|walks| - 1])
    ensures var last := open[|open| - 1]; var walk := walks[|walks| - 1];
            IsGridWalk(grid, walk, start, last.cell) && |walk| == last.steps
            && (!IsWall(grid, start) ==> WallCount(grid, walk) == if last.beenThroughWall then 1 else 0)
  {
  }

  /** A non-empty open list is its front part followed by its last entry. */
  lemma SplitLast(open: seq<Entry>)
    requires open != []
    ensures open == open[..|open| - 1] + [open[|open| - 1]]
  {
  }

  /** The route length from the top-left to the bottom-right cell. */
  method Solution(grid: seq<seq<int>>) returns (steps: Option<int>)
    requires Rectangular(grid)
    ensures steps.Some? ==> exists w :: IsGridWalk(grid, w, Cell(0, 0), End(grid)) && |w| == steps.value
                                        && (!IsWall(grid, Cell(0, 0)) ==> WallCount(grid, w) <= 1)
    ensures steps.None? && !IsWall(grid, Cell(0, 0)) ==>
              forall w :: IsGridWalk(grid, w, Cell(0, 0), End(grid)) ==> WallCount(grid, w) > 1
  {
    var numRows := |grid|;
    var start := Cell(0, 0);
    var end := Cell(numRows - 1, |grid[numRows - 1]| - 1);
    steps := Bfs(grid, start, end);
  }
}
