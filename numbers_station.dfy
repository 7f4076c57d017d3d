/**
 * Numbers Station Coded Messages: find the first run of consecutive codes in
 * `l` that adds up to the key `t`, as the inclusive index pair [start, end],
 * or [-1, -1] when there is none. A window grows to the right while its total
 * stays below the key and restarts one code further on once it overshoots.
 */
module NumbersStation {
  import opened Common

  /** l[a] + ... + l[b], both ends included. */
  function WindowSum(l: seq<int>, a: int, b: int): int
    requires 0 <= a <= b < |l|
  {
    Sum(l[a..b + 1])
  }

  /** The codes the window search is meant for: none of them negative. */
  predicate NonNegative(l: seq<int>)
  {
    forall i :: 0 <= i < |l| ==> l[i] >= 0
  }

  /** The reported pair is a window adding up to `t`, or [-1, -1]. */
  ghost predicate Sound(l: seq<int>, t: int, result: seq<int>)
  {
    result == [-1, -1]
    || (|result| == 2 && 0 <= result[0] <= result[1] < |l| && WindowSum(l, result[0], result[1]) == t)
  }

  /** No window of `l` adds up to `t`. */
  ghost predicate NoWindow(l: seq<int>, t: int)
  {
    forall a, b :: 0 <= a <= b < |l| ==> WindowSum(l, a, b) != t
  }

  /** No window adding up to `t` starts before `start`, or at `start` and ends before `end`. */
  ghost predicate FirstWindow(l: seq<int>, t: int, start: int, end: int)
  {
    forall a, b :: 0 <= a <= b < |l| && WindowSum(l, a, b) == t ==> start < a || (start == a && end <= b)
  }

  /**
   * What the search answers: a sound pair, and for codes that are not
   * negative, [-1, -1] only when no window adds up to `t` and otherwise the
   * window that starts first.
   */
  ghost predicate Answers(l: seq<int>, t: int, result: seq<int>)
  {
    Sound(l, t, result)
    && (NonNegative(l) && result == [-1, -1] ==> NoWindow(l, t))
    && (NonNegative(l) && result != [-1, -1] ==> FirstWindow(l, t, result[0], result[1]))
  }

  lemma SumExtend(l: seq<int>, a: int, b: int)
    requires 0 <= a <= b < |l|
    ensures Sum(l[a..b + 1]) == Sum(l[a..b]) + l[b]
  {
    assert l[a..b + 1][..b - a] == l[a..b];
  }

  /** Once the window from `left` overshoots `t` at `right`, every longer window from `left` does too. */
  lemma Overshoot(l: seq<int>, t: int, left: int, right: int)
    requires NonNegative(l) && 0 <= left <= right < |l| && WindowSum(l, left, right) > t
    ensures forall b :: right <= b < |l| ==> WindowSum(l, left, b) > t
  {
    forall b | right <= b < |l| ensures WindowSum(l, left, b) > t {
      SumWindowMonotone(l, left, right + 1, left, b + 1);
    }
  }

  /** While the window from `left` to the end stays below `t`, so does every window starting after `left`. */
  lemma Undershoot(l: seq<int>, t: int, left: int)
    requires NonNegative(l) && 0 <= left < |l| && Sum(l[left..]) < t
    ensures forall a, b :: left < a <= b < |l| ==> WindowSum(l, a, b) < t
  {
    forall a, b | left < a <= b < |l| ensures WindowSum(l, a, b) < t {
      SumWindowMonotone(l, a, b + 1, left, |l|);
      assert l[left..|l|] == l[left..];
    }
  }

  /** The two-pointer window search of `solution`. */
  method Solution(l: seq<int>, t: int) returns (result: seq<int>)
    ensures Answers(l, t, result)
  {
    var left := 0;
    var right := 0;
    var total := 0;
    while left <= |l|
      invariant 0 <= left <= right <= |l|
      invariant total == Sum(l[left..right])
      invariant right > left ==> total < t
      invariant forall b :: left <= b < right ==> WindowSum(l, left, b) != t
      invariant NonNegative(l) ==> forall a, b :: 0 <= a < left && a <= b < |l| ==> WindowSum(l, a, b) != t
      decreases |l| - left, |l| - right
    {
      if right >= |l| {
        break;
      }
      SumExtend(l, left, right);
      total := total + l[right];
      if total == t {
        return [left, right];
      }
      right := right + 1;
      if total > t {
        if NonNegative(l) {
          Overshoot(l, t, left, right - 1);
        }
        left := left + 1;
        right := left;
        total := 0;
      }
    }
    if NonNegative(l) && left < |l| {
      assert l[left..right] == l[left..];
      Undershoot(l, t, left);
    }
    return [-1, -1];
  }

  lemma SumOfTwo(x: int, y: int)
    ensures Sum([x]) == x && Sum([x, y]) == x + y
  {
    assert [x][..0] == [] && [x, y][..1] == [x];
  }

  /** The first official case: codes [1, 2, 3, 4] never add up to 15. */
  lemma NoWindowForFifteen(r: seq<int>)
    requires Answers([1, 2, 3, 4], 15, r)
    ensures r == [-1, -1]
  {
    var l := [1, 2, 3, 4];
    SumOfTwo(1, 2);
    SumOfTwo(3, 4);
    SumConcat([1, 2], [3, 4]);
    assert l[0..4] == [1, 2] + [3, 4];
    forall a, b | 0 <= a <= b < |l| ensures WindowSum(l, a, b) <= 10 {
      SumWindowMonotone(l, a, b + 1, 0, 4);
    }
  }

  /** The second official case: in [4, 3, 10, 2, 8] the first window adding up to 12 is [2, 3]. */
  lemma FirstWindowForTwelve(r: seq<int>)
    requires Answers([4, 3, 10, 2, 8], 12, r)
    ensures r == [2, 3]
  {
    var l := [4, 3, 10, 2, 8];
    assert l[0..1] == [4] && l[0..2] == [4, 3] && l[1..2] == [3] && l[1..3] == [3, 10];
    assert l[2..3] == [10] && l[2..4] == [10, 2];
    SumOfTwo(4, 3);
    SumOfTwo(3, 10);
    SumOfTwo(10, 2);
    forall a, b | 0 <= a <= b < |l| && (a < 2 || (a == 2 && b < 3)) ensures WindowSum(l, a, b) != 12 {
      if a < 2 && b >= 2 {
        SumWindowMonotone(l, 1, 3, a, b + 1);
      }
    }
    assert WindowSum(l, 2, 3) == 12;
  }
}
