/**
 * Small shared vocabulary: an optional value (Python's `None`), square
 * matrices given as lists of rows, and the sum of a sequence of integers
 * (Python's `sum`).
 */
module Common {

  datatype Option<+T> = None | Some(value: T)

  /** A list of lists with as many entries in every row as there are rows. */
  ghost predicate IsSquare(m: seq<seq<int>>)
  {
    forall i :: 0 <= i < |m| ==> |m[i]| == |m|
  }

  /** Every entry of `w` names a row of `m`. */
  ghost predicate InRange(m: seq<seq<int>>, w: seq<int>)
  {
    forall i :: 0 <= i < |w| ==> 0 <= w[i] < |m|
  }

  /** No value occurs twice in `w`. */
  ghost predicate Distinct<T>(w: seq<T>)
  {
    forall i, j :: 0 <= i < j < |w| ==> w[i] != w[j]
  }

  /** Two duplicate-free lists with nothing in common concatenate without duplicates. */
  lemma DistinctConcat<T>(a: seq<T>, b: seq<T>)
    requires Distinct(a) && Distinct(b) && forall x :: x in a ==> x !in b
    ensures Distinct(a + b)
  {
    forall i, j | 0 <= i < j < |a + b| ensures (a + b)[i] != (a + b)[j] {
      if i < |a| <= j {
        assert (a + b)[i] in a && (a + b)[j] == b[j - |a|];
      }
    }
  }

  /** No list in `lists` is empty. */
  ghost predicate NoneEmpty<T>(lists: seq<seq<T>>)
  {
    forall k :: 0 <= k < |lists| ==> lists[k] != []
  }

  /** Every entry of `s` is smaller than the next. */
  ghost predicate Increasing(s: seq<int>)
  {
    forall i, j :: 0 <= i < j < |s| ==> s[i] < s[j]
  }

  /** Sum of a sequence, peeled from the right so that extending a prefix by
      one element is a single unfolding. */
  function Sum(s: seq<int>): int
  {
    if s == [] then 0 else Sum(s[..|s| - 1]) + s[|s| - 1]
  }

  lemma {:induction false} SumConcat(a: seq<int>, b: seq<int>)
    ensures Sum(a + b) == Sum(a) + Sum(b)
    decreases |b|
  {
    if b == [] {
      assert a + b == a;
    } else {
      assert (a + b)[..|a + b| - 1] == a + b[..|b| - 1];
      SumConcat(a, b[..|b| - 1]);
    }
  }

  lemma SumCons(x: int, s: seq<int>)
    ensures Sum([x] + s) == x + Sum(s)
  {
    SumConcat([x], s);
    assert Sum([x]) == Sum([]) + x by { assert [x][..0] == []; }
  }

  lemma {:induction false} SumUpdate(s: seq<int>, j: int, v: int)
    requires 0 <= j < |s|
    ensures Sum(s[j := v]) == Sum(s) - s[j] + v
    decreases |s|
  {
    var n := |s|;
    if j == n - 1 {
      assert s[j := v][..n - 1] == s[..n - 1];
    } else {
      assert s[j := v][..n - 1] == s[..n - 1][j := v];
      SumUpdate(s[..n - 1], j, v);
    }
  }

  lemma {:induction false} SumNonNegative(s: seq<int>)
    requires forall i :: 0 <= i < |s| ==> s[i] >= 0
    ensures Sum(s) >= 0
    decreases |s|
  {
    if s != [] {
      SumNonNegative(s[..|s| - 1]);
    }
  }

  /** Concatenation regroups. */
  lemma Regroup<T>(a: seq<T>, b: seq<T>, c: seq<T>)
    ensures a + (b + c) == (a + b) + c
  {
  }

  /** Two adjacent slices joined make the slice they cover. */
  lemma SliceJoin<T>(s: seq<T>, i: int, j: int, k: int)
    requires 0 <= i <= j <= k <= |s|
    ensures s[i..j] + s[j..k] == s[i..k]
  {
    forall t | 0 <= t < k - i ensures (s[i..j] + s[j..k])[t] == s[i..k][t] {
    }
  }

  /** Sums of the windows of a non-negative sequence grow with the window. */
  lemma {:induction false} SumWindowMonotone(s: seq<int>, a: int, b: int, a': int, b': int)
    requires forall i :: 0 <= i < |s| ==> s[i] >= 0
    requires 0 <= a' <= a <= b <= b' <= |s|
    ensures Sum(s[a..b]) <= Sum(s[a'..b'])
  {
    SumConcat(s[a'..a], s[a..b]);
    SliceJoin(s, a', a, b);
    SumConcat(s[a'..b], s[b..b']);
    SliceJoin(s, a', b, b');
    SumNonNegative(s[a'..a]);
    SumNonNegative(s[b..b']);
  }

  /** Summing two sequences entry by entry adds their sums. */
  lemma {:induction false} SumPointwise(a: seq<int>, b: seq<int>, c: seq<int>)
    requires |a| == |b| == |c| && forall i :: 0 <= i < |c| ==> c[i] == a[i] + b[i]
    ensures Sum(c) == Sum(a) + Sum(b)
    decreases |c|
  {
    if c != [] {
      var n := |c| - 1;
      SumPointwise(a[..n], b[..n], c[..n]);
    }
  }

  /** A sequence that is zero everywhere but at `x` sums to its entry at `x`. */
  lemma {:induction false} SumSingle(a: seq<int>, x: int)
    requires 0 <= x < |a| && forall i :: 0 <= i < |a| && i != x ==> a[i] == 0
    ensures Sum(a) == a[x]
    decreases |a|
  {
    var n := |a| - 1;
    if x < n {
      SumSingle(a[..n], x);
    } else {
      SumZero(a[..n]);
    }
  }

  lemma {:induction false} SumZero(a: seq<int>)
    requires forall i :: 0 <= i < |a| ==> a[i] == 0
    ensures Sum(a) == 0
    decreases |a|
  {
    if a != [] {
      SumZero(a[..|a| - 1]);
    }
  }

  /** Each tail with `h` put in front of it, in the same order. */
  function Prefixed(h: int, tails: seq<seq<int>>): (r: seq<seq<int>>)
    ensures |r| == |tails| && forall t :: 0 <= t < |r| ==> r[t] == [h] + tails[t]
  {
    seq(|tails|, t requires 0 <= t < |tails| => [h] + tails[t])
  }

  /** Extending a prefix by one entry adds that entry to the sum. */
  lemma SumPrefix(s: seq<int>, k: int)
    requires 0 < k <= |s|
    ensures Sum(s[..k]) == Sum(s[..k - 1]) + s[k - 1]
  {
    assert s[..k][..k - 1] == s[..k - 1];
  }
}
