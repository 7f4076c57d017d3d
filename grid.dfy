/**
 * The station grid shared by both versions of Prepare the Bunnies' Escape:
 * a rectangle of cells, 0 for open floor and 1 for a wall, walked in
 * orthogonal steps.
 */
module Grid {

  datatype Cell = Cell(row: int, col: int)

  /** At least one row, and every row as long as the first. */
  ghost predicate Rectangular(grid: seq<seq<int>>)
  {
    |grid| >= 1 && |grid[0]| >= 1 && forall r :: 0 <= r < |grid| ==> |grid[r]| == |grid[0]|
  }

  /** The escape pod door: the last cell of the last row. */
  function End(grid: seq<seq<int>>): Cell
    requires |grid| >= 1
  {
    Cell(|grid| - 1, |grid[|grid| - 1]| - 1)
  }

  predicate InBounds(grid: seq<seq<int>>, c: Cell)
  {
    0 <= c.row < |grid| && 0 <= c.col < |grid[c.row]|
  }

  /** Every cell of the map. */
  ghost function Cells(grid: seq<seq<int>>): (cells: set<Cell>)
    ensures forall c :: c in cells <==> InBounds(grid, c)
  {
    set r, c | 0 <= r < |grid| && 0 <= c < |grid[r]| :: Cell(r, c)
  }

  ghost predicate Adjacent(a: Cell, b: Cell)
  {
    (a.row == b.row && (a.col == b.col + 1 || b.col == a.col + 1))
    || (a.col == b.col && (a.row == b.row + 1 || b.row == a.row + 1))
  }

  predicate IsWall(grid: seq<seq<int>>, c: Cell)
    requires InBounds(grid, c)
  {
    grid[c.row][c.col] == 1
  }

  /** The cells one orthogonal step from `coord`: up, down, left, right, as far as the grid allows. */
  function Neighbors(grid: seq<seq<int>>, coord: Cell): (adjacent: seq<Cell>)
    requires Rectangular(grid) && InBounds(grid, coord)
    ensures |adjacent| <= 4
    ensures forall i :: 0 <= i < |adjacent| ==> InBounds(grid, adjacent[i]) && Adjacent(adjacent[i], coord)
    ensures forall c :: InBounds(grid, c) && Adjacent(c, coord) ==> c in adjacent
    ensures forall i, j :: 0 <= i < j < |adjacent| ==> adjacent[i] != adjacent[j]
  {
    var up := if coord.row > 0 then [Cell(coord.row - 1, coord.col)] else [];
    var down := if coord.row < |grid| - 1 then [Cell(coord.row + 1, coord.col)] else [];
    var left := if coord.col > 0 then [Cell(coord.row, coord.col - 1)] else [];
    var right := if coord.col < |grid[coord.row]| - 1 then [Cell(coord.row, coord.col + 1)] else [];
    up + down + left + right
  }

  /** `w` walks from cell to adjacent cell inside the grid. */
  ghost predicate IsGridWalk(grid: seq<seq<int>>, w: seq<Cell>, from: Cell, to: Cell)
  {
    |w| >= 1 && w[0] == from && w[|w| - 1] == to
    && (forall i :: 0 <= i < |w| ==> InBounds(grid, w[i]))
    && (forall i :: 0 <= i < |w| - 1 ==> Adjacent(w[i], w[i + 1]))
  }

  /** How many cells of `w` are walls. */
  ghost function WallCount(grid: seq<seq<int>>, w: seq<Cell>): nat
    requires forall i :: 0 <= i < |w| ==> InBounds(grid, w[i])
  {
    if w == [] then 0
    else WallCount(grid, w[..|w| - 1]) + if IsWall(grid, w[|w| - 1]) then 1 else 0
  }

  /** Stepping from the end of a walk to an adjacent cell extends the walk. */
  lemma ExtendWalk(grid: seq<seq<int>>, w: seq<Cell>, from: Cell, to: Cell, next: Cell)
    requires IsGridWalk(grid, w, from, to) && InBounds(grid, next) && Adjacent(to, next)
    ensures IsGridWalk(grid, w + [next], from, next)
    ensures WallCount(grid, w + [next]) == WallCount(grid, w) + if IsWall(grid, next) then 1 else 0
  {
    assert (w + [next])[..|w|] == w;
  }

  /** A set inside another is no larger. */
  lemma {:induction false} SubsetSize<T>(a: set<T>, b: set<T>)
    requires a <= b
    ensures |a| <= |b|
    decreases a
  {
    if a != {} {
      var x :| x in a;
      SubsetSize(a - {x}, b - {x});
    }
  }
}
