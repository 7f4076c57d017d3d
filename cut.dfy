/**
 * Cuts of a capacity matrix. A cut splits the nodes into two sides, given as
 * one boolean per node; its capacity is the total of the edges leading from
 * side `true` to side `false`. The lemmas here are the bookkeeping behind the
 * max-flow min-cut argument for the escape-pods network: sums of matrix
 * blocks can be taken by rows or by columns, and a residual update that keeps
 * every pair sum m[i][j] + m[j][i] keeps the block inside a side unchanged.
 */
module Cuts {
  import opened Common

  /** Column `t` of a square matrix: the capacities entering node `t`. */
  ghost function Column(m: seq<seq<int>>, t: int): (c: seq<int>)
    requires IsSquare(m) && 0 <= t < |m|
    ensures |c| == |m| && forall i :: 0 <= i < |m| ==> c[i] == m[i][t]
  {
    seq(|m|, i requires 0 <= i < |m| => m[i][t])
  }

  /** `side` assigns a side to every node of the square matrix `m`. */
  ghost predicate Sides(m: seq<seq<int>>, side: seq<bool>)
  {
    IsSquare(m) && |side| == |m|
  }

  /** The sum of the entries `row[j]`, j < q, whose node `j` lies on side `b`. */
  ghost function Sel(row: seq<int>, side: seq<bool>, b: bool, q: nat): int
    requires q <= |row| && q <= |side|
  {
    if q == 0 then 0 else Sel(row, side, b, q - 1) + (if side[q - 1] == b then row[q - 1] else 0)
  }

  /** The edges from the first `p` nodes on side `a` to the first `q` nodes on side `b`, summed row by row. */
  ghost function RowBlock(m: seq<seq<int>>, side: seq<bool>, a: bool, b: bool, p: nat, q: nat): int
    requires Sides(m, side) && p <= |m| && q <= |m|
  {
    if p == 0 then 0
    else RowBlock(m, side, a, b, p - 1, q) + (if side[p - 1] == a then Sel(m[p - 1], side, b, q) else 0)
  }

  /** The same block summed column by column. */
  ghost function ColBlock(m: seq<seq<int>>, side: seq<bool>, a: bool, b: bool, p: nat, q: nat): int
    requires Sides(m, side) && p <= |m| && q <= |m|
  {
    if q == 0 then 0
    else ColBlock(m, side, a, b, p, q - 1) + (if side[q - 1] == b then Sel(Column(m, q - 1), side, a, p) else 0)
  }

  /** The capacity of the cut: every edge from side `true` to side `false`. */
  ghost function Cut(m: seq<seq<int>>, side: seq<bool>): int
    requires Sides(m, side)
  {
    RowBlock(m, side, true, false, |m|, |m|)
  }

  /** The total of the rows of the first `p` nodes on side `true`. */
  ghost function SideSum(m: seq<seq<int>>, side: seq<bool>, p: nat): int
    requires Sides(m, side) && p <= |m|
  {
    if p == 0 then 0 else SideSum(m, side, p - 1) + (if side[p - 1] then Sum(m[p - 1]) else 0)
  }

  /** A row is the sum of its two sides. */
  lemma {:induction false} SelSplit(row: seq<int>, side: seq<bool>, q: nat)
    requires q <= |row| && q <= |side|
    ensures Sel(row, side, true, q) + Sel(row, side, false, q) == Sum(row[..q])
  {
    if q > 0 {
      SelSplit(row, side, q - 1);
      assert row[..q][..q - 1] == row[..q - 1];
    }
  }

  lemma {:induction false} SelNonNegative(row: seq<int>, side: seq<bool>, b: bool, q: nat)
    requires q <= |row| && q <= |side|
    requires forall j :: 0 <= j < q ==> row[j] >= 0
    ensures Sel(row, side, b, q) >= 0
  {
    if q > 0 {
      SelNonNegative(row, side, b, q - 1);
    }
  }

  /** A side whose entries are all zero sums to zero. */
  lemma {:induction false} SelZero(row: seq<int>, side: seq<bool>, b: bool, q: nat)
    requires q <= |row| && q <= |side|
    requires forall j :: 0 <= j < q && side[j] == b ==> row[j] == 0
    ensures Sel(row, side, b, q) == 0
  {
    if q > 0 {
      SelZero(row, side, b, q - 1);
    }
  }

  /** On a non-negative row, one side sums to at most the whole row. */
  lemma SelAtMostSum(row: seq<int>, side: seq<bool>, b: bool)
    requires |row| == |side| && forall j :: 0 <= j < |row| ==> row[j] >= 0
    ensures Sel(row, side, b, |row|) <= Sum(row)
  {
    SelSplit(row, side, |row|);
    SelNonNegative(row, side, !b, |row|);
    assert row[..|row|] == row;
  }

  /** Entry-wise equal totals of two rows give equal totals of their sides. */
  lemma {:induction false} SelPair(row: seq<int>, col: seq<int>, row0: seq<int>, col0: seq<int>,
                                   side: seq<bool>, b: bool, q: nat)
    requires q <= |side| && q <= |row| && q <= |col| && q <= |row0| && q <= |col0|
    requires forall j :: 0 <= j < q ==> row[j] + col[j] == row0[j] + col0[j]
    ensures Sel(row, side, b, q) + Sel(col, side, b, q) == Sel(row0, side, b, q) + Sel(col0, side, b, q)
  {
    if q > 0 {
      SelPair(row, col, row0, col0, side, b, q - 1);
    }
  }

  /** Taking one more column into a row-wise block adds that column's share. */
  lemma {:induction false} RowBlockPeel(m: seq<seq<int>>, side: seq<bool>, a: bool, b: bool, p: nat, q: nat)
    requires Sides(m, side) && p <= |m| && 0 < q <= |m|
    ensures RowBlock(m, side, a, b, p, q)
            == RowBlock(m, side, a, b, p, q - 1) + (if side[q - 1] == b then Sel(Column(m, q - 1), side, a, p) else 0)
  {
    if p > 0 {
      RowBlockPeel(m, side, a, b, p - 1, q);
    }
  }

  /** A block sums to the same total by rows and by columns. */
  lemma {:induction false} Fubini(m: seq<seq<int>>, side: seq<bool>, a: bool, b: bool, p: nat, q: nat)
    requires Sides(m, side) && p <= |m| && q <= |m|
    ensures RowBlock(m, side, a, b, p, q) == ColBlock(m, side, a, b, p, q)
  {
    if q == 0 {
      RowBlockEmpty(m, side, a, b, p);
    } else {
      RowBlockPeel(m, side, a, b, p, q);
      Fubini(m, side, a, b, p, q - 1);
    }
  }

  lemma {:induction false} RowBlockEmpty(m: seq<seq<int>>, side: seq<bool>, a: bool, b: bool, p: nat)
    requires Sides(m, side) && p <= |m|
    ensures RowBlock(m, side, a, b, p, 0) == 0
  {
    if p > 0 {
      RowBlockEmpty(m, side, a, b, p - 1);
    }
  }

  /** Every pair sum m[i][j] + m[j][i] as in `m0`. */
  ghost predicate PairSumsKept(m0: seq<seq<int>>, m: seq<seq<int>>)
  {
    IsSquare(m0) && IsSquare(m) && |m0| == |m|
    && forall i, j :: 0 <= i < |m| && 0 <= j < |m| ==> m[i][j] + m[j][i] == m0[i][j] + m0[j][i]
  }

  /** Within one side, the edges out plus the edges in keep their total when every pair sum is kept. */
  lemma {:induction false} PairBlocks(m0: seq<seq<int>>, m: seq<seq<int>>, side: seq<bool>, k: nat)
    requires PairSumsKept(m0, m) && Sides(m, side) && k <= |m|
    ensures RowBlock(m, side, true, true, k, |m|) + ColBlock(m, side, true, true, |m|, k)
            == RowBlock(m0, side, true, true, k, |m|) + ColBlock(m0, side, true, true, |m|, k)
  {
    if k > 0 {
      PairBlocks(m0, m, side, k - 1);
      var x := k - 1;
      SelPair(m[x], Column(m, x), m0[x], Column(m0, x), side, true, |m|);
    }
  }

  /** The edges inside side `true` keep their total when every pair sum is kept. */
  lemma InsideKept(m0: seq<seq<int>>, m: seq<seq<int>>, side: seq<bool>)
    requires PairSumsKept(m0, m) && Sides(m, side)
    ensures RowBlock(m, side, true, true, |m|, |m|) == RowBlock(m0, side, true, true, |m|, |m|)
  {
    PairBlocks(m0, m, side, |m|);
    Fubini(m, side, true, true, |m|, |m|);
    Fubini(m0, side, true, true, |m|, |m|);
  }

  /** The rows on side `true` are the edges inside that side plus the cut edges. */
  lemma {:induction false} SideSplit(m: seq<seq<int>>, side: seq<bool>, p: nat)
    requires Sides(m, side) && p <= |m|
    ensures SideSum(m, side, p) == RowBlock(m, side, true, true, p, |m|) + RowBlock(m, side, true, false, p, |m|)
  {
    if p > 0 {
      SideSplit(m, side, p - 1);
      SelSplit(m[p - 1], side, |m|);
      assert m[p - 1][..|m|] == m[p - 1];
    }
  }

  /**
   * When every pair sum is kept, what the rows on side `true` lost is exactly
   * what the cut lost.
   */
  lemma CutChange(m0: seq<seq<int>>, m: seq<seq<int>>, side: seq<bool>)
    requires PairSumsKept(m0, m) && Sides(m, side)
    ensures Cut(m0, side) - Cut(m, side) == SideSum(m0, side, |m|) - SideSum(m, side, |m|)
  {
    InsideKept(m0, m, side);
    SideSplit(m, side, |m|);
    SideSplit(m0, side, |m|);
  }

  lemma {:induction false} RowBlockNonNegative(m: seq<seq<int>>, side: seq<bool>, a: bool, b: bool, p: nat)
    requires Sides(m, side) && p <= |m|
    requires forall i, j :: 0 <= i < |m| && 0 <= j < |m| ==> m[i][j] >= 0
    ensures RowBlock(m, side, a, b, p, |m|) >= 0
  {
    if p > 0 {
      RowBlockNonNegative(m, side, a, b, p - 1);
      SelNonNegative(m[p - 1], side, b, |m|);
    }
  }

  /** A cut of non-negative capacities is non-negative. */
  lemma CutNonNegative(m: seq<seq<int>>, side: seq<bool>)
    requires Sides(m, side) && forall i, j :: 0 <= i < |m| && 0 <= j < |m| ==> m[i][j] >= 0
    ensures Cut(m, side) >= 0
  {
    RowBlockNonNegative(m, side, true, false, |m|);
  }

  lemma {:induction false} SelAtLeast(row: seq<int>, side: seq<bool>, b: bool, q: nat, j: nat)
    requires q <= |row| && q <= |side| && j < q && side[j] == b
    requires forall k :: 0 <= k < q ==> row[k] >= 0
    ensures row[j] <= Sel(row, side, b, q)
  {
    if j < q - 1 {
      SelAtLeast(row, side, b, q - 1, j);
    } else {
      SelNonNegative(row, side, b, q - 1);
    }
  }

  lemma {:induction false} RowBlockAtLeast(m: seq<seq<int>>, side: seq<bool>, p: nat, i: nat)
    requires Sides(m, side) && p <= |m| && i < p && side[i]
    requires forall r, j :: 0 <= r < |m| && 0 <= j < |m| ==> m[r][j] >= 0
    ensures Sel(m[i], side, false, |m|) <= RowBlock(m, side, true, false, p, |m|)
  {
    if i < p - 1 {
      RowBlockAtLeast(m, side, p - 1, i);
      if side[p - 1] {
        SelNonNegative(m[p - 1], side, false, |m|);
      }
    } else {
      RowBlockNonNegative(m, side, true, false, p - 1);
    }
  }

  /** On non-negative capacities, every edge crossing a cut is at most the cut's capacity. */
  lemma CrossingAtMostCut(m: seq<seq<int>>, side: seq<bool>, i: nat, j: nat)
    requires Sides(m, side) && i < |m| && j < |m| && side[i] && !side[j]
    requires forall r, k :: 0 <= r < |m| && 0 <= k < |m| ==> m[r][k] >= 0
    ensures m[i][j] <= Cut(m, side)
  {
    SelAtLeast(m[i], side, false, |m|, j);
    RowBlockAtLeast(m, side, |m|, i);
  }

  lemma {:induction false} RowBlockZero(m: seq<seq<int>>, side: seq<bool>, p: nat)
    requires Sides(m, side) && p <= |m|
    requires forall i, j :: 0 <= i < |m| && 0 <= j < |m| && side[i] && !side[j] ==> m[i][j] == 0
    ensures RowBlock(m, side, true, false, p, |m|) == 0
  {
    if p > 0 {
      RowBlockZero(m, side, p - 1);
      if side[p - 1] {
        SelZero(m[p - 1], side, false, |m|);
      }
    }
  }

  /** A cut no edge crosses has capacity zero. */
  lemma CutZero(m: seq<seq<int>>, side: seq<bool>)
    requires Sides(m, side)
    requires forall i, j :: 0 <= i < |m| && 0 <= j < |m| && side[i] && !side[j] ==> m[i][j] == 0
    ensures Cut(m, side) == 0
  {
    RowBlockZero(m, side, |m|);
  }
}
