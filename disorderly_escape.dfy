/**
 * Disorderly Escape: the number of w × h grids over s states that are
 * distinct up to permuting rows and permuting columns. By Burnside's lemma
 * this is a sum over pairs of cycle types (partitions of h and of w) of the
 * sizes of their conjugacy classes times s raised to the number of cycles
 * that the pair induces on the cells, divided by w! · h!.
 */
module DisorderlyEscape {
  import opened Common

  function Factorial(n: nat): (f: int)
    ensures f >= 1
  {
    if n == 0 then 1 else n * Factorial(n - 1)
  }

  /** Python's `**` on a non-negative exponent. */
  function Power(b: int, e: nat): int
  {
    if e == 0 then 1 else b * Power(b, e - 1)
  }

  /** Euclid's algorithm, as `fractions.gcd` computes it on non-negative arguments. */
  function Gcd(a: nat, b: nat): nat
    decreases b
  {
    if b == 0 then a else Gcd(b, a % b)
  }

  function Multiple(d: int, k: int): int
  {
    d * k
  }

  ghost predicate Divides(d: int, a: int)
  {
    exists k :: a == Multiple(d, k)
  }

  /** If d divides b and r, it divides q * b + r. */
  lemma DividesCombination(d: int, b: int, r: int, q: int)
    requires Divides(d, b) && Divides(d, r)
    ensures Divides(d, q * b + r)
  {
    var x :| b == Multiple(d, x);
    var y :| r == Multiple(d, y);
    assert q * b + r == Multiple(d, q * x + y) by {
      assert q * (d * x) == d * (q * x);
    }
  }

  /** Gcd(a, b) divides both arguments, and every common divisor divides it. */
  lemma {:induction false} GcdGreatestCommonDivisor(a: nat, b: nat)
    ensures Divides(Gcd(a, b), a) && Divides(Gcd(a, b), b)
    ensures forall d :: Divides(d, a) && Divides(d, b) ==> Divides(d, Gcd(a, b))
    decreases b
  {
    if b == 0 {
      assert a == Multiple(a, 1) && 0 == Multiple(a, 0);
    } else {
      var q, r := a / b, a % b;
      assert a == q * b + r;
      GcdGreatestCommonDivisor(b, r);
      DividesCombination(Gcd(b, r), b, r, q);
      forall d | Divides(d, a) && Divides(d, b) ensures Divides(d, Gcd(a, b)) {
        DividesCombination(d, b, a, -q);
        assert -q * b + a == r;
      }
    }
  }

  /** Python's condition for raising the first part: a first part below the second, or no second part. */
  predicate CanRaise(p: seq<int>)
  {
    p != [] && (|p| < 2 || p[1] > p[0])
  }

  /**
   * The partitions of n + 1 made from those of n, in the generator's order:
   * for each p, first 1 prepended to p, then p with its first part raised.
   */
  function Grow(ps: seq<seq<int>>): (grown: seq<seq<int>>)
    ensures AllPositive(ps) ==> AllPositive(grown)
  {
    if ps == [] then []
    else
      var p := ps[0];
      assert p in ps;
      GrownPositive(p);
      [[1] + p] + (if CanRaise(p) then [[p[0] + 1] + p[1..]] else []) + Grow(ps[1..])
  }

  lemma GrownPositive(p: seq<int>)
    ensures Positive(p) ==> Positive([1] + p) && (CanRaise(p) ==> Positive([p[0] + 1] + p[1..]))
  {
  }

  /** The partitions of n, as Eppstein's generator lists them. */
  function Partitions(n: nat): (ps: seq<seq<int>>)
    ensures AllPositive(ps)
  {
    if n == 0 then [[]] else Grow(Partitions(n - 1))
  }

  ghost predicate Grows(p: seq<int>, q: seq<int>)
  {
    q == [1] + p || (CanRaise(p) && q == [p[0] + 1] + p[1..])
  }

  ghost predicate Positive(p: seq<int>)
  {
    forall i :: 0 <= i < |p| ==> p[i] >= 1
  }

  ghost predicate AllPositive(ps: seq<seq<int>>)
  {
    forall p :: p in ps ==> Positive(p)
  }

  /** Positive parts, in non-decreasing order, summing to n. */
  ghost predicate IsPartition(p: seq<int>, n: int)
  {
    Positive(p) && (forall i, j :: 0 <= i < j < |p| ==> p[i] <= p[j]) && Sum(p) == n
  }

  lemma {:induction false} GrowMembers(ps: seq<seq<int>>, q: seq<int>)
    ensures q in Grow(ps) <==> exists p :: p in ps && Grows(p, q)
    decreases |ps|
  {
    if ps != [] {
      var p := ps[0];
      var head := [[1] + p] + (if CanRaise(p) then [[p[0] + 1] + p[1..]] else []);
      assert Grow(ps) == head + Grow(ps[1..]);
      assert q in head <==> Grows(p, q);
      GrowMembers(ps[1..], q);
      if q in Grow(ps[1..]) {
        var p' :| p' in ps[1..] && Grows(p', q);
        assert p' in ps;
      }
      if exists p' :: p' in ps && Grows(p', q) {
        var p' :| p' in ps && Grows(p', q);
        if p' != p {
          assert p' in ps[1..];
        }
      }
    }
  }

  lemma GrowSound(p: seq<int>, q: seq<int>, n: int)
    requires IsPartition(p, n) && Grows(p, q)
    ensures IsPartition(q, n + 1)
  {
    if q == [1] + p {
      SumCons(1, p);
      forall i, j | 0 <= i < j < |q| ensures q[i] <= q[j] {
        if i > 0 {
          assert q[i] == p[i - 1] && q[j] == p[j - 1];
        } else {
          assert q[j] == p[j - 1];
        }
      }
    } else {
      RaiseSound(p, n);
    }
  }

  lemma RaiseSound(p: seq<int>, n: int)
    requires IsPartition(p, n) && CanRaise(p)
    ensures IsPartition([p[0] + 1] + p[1..], n + 1)
  {
    var q := [p[0] + 1] + p[1..];
    assert p == [p[0]] + p[1..];
    SumCons(p[0], p[1..]);
    SumCons(p[0] + 1, p[1..]);
    forall i, j | 0 <= i < j < |q| ensures q[i] <= q[j] {
      assert q[j] == p[j];
      if i == 0 {
        assert j == 1 || p[1] <= p[j];
      } else {
        assert q[i] == p[i];
      }
    }
  }

  /** Each partition of n + 1 grows from a partition of n. */
  lemma GrowComplete(q: seq<int>, n: nat)
    requires IsPartition(q, n + 1)
    ensures exists p :: IsPartition(p, n) && Grows(p, q)
  {
    assert q != [];
    if q[0] == 1 {
      DropFirstOne(q, n);
    } else {
      LowerFirst(q, n);
    }
  }

  /** A partition of n + 1 that starts with a 1 is 1 prepended to a partition of n. */
  lemma DropFirstOne(q: seq<int>, n: nat)
    requires IsPartition(q, n + 1) && q != [] && q[0] == 1
    ensures IsPartition(q[1..], n) && Grows(q[1..], q)
  {
    assert q == [q[0]] + q[1..];
    SumCons(q[0], q[1..]);
    var p := q[1..];
    forall i, j | 0 <= i < j < |p| ensures p[i] <= p[j] {
      assert p[i] == q[i + 1] && p[j] == q[j + 1];
    }
  }

  /** A partition of n + 1 whose first part exceeds 1 is a partition of n with its first part raised. */
  lemma LowerFirst(q: seq<int>, n: nat)
    requires IsPartition(q, n + 1) && q != [] && q[0] > 1
    ensures IsPartition([q[0] - 1] + q[1..], n) && Grows([q[0] - 1] + q[1..], q)
  {
    assert q == [q[0]] + q[1..];
    SumCons(q[0], q[1..]);
    var p := [q[0] - 1] + q[1..];
    SumCons(q[0] - 1, q[1..]);
    assert p[1..] == q[1..];
    forall i, j | 0 <= i < j < |p| ensures p[i] <= p[j] {
      assert p[j] == q[j];
      if i > 0 {
        assert p[i] == q[i];
      }
    }
    assert CanRaise(p);
  }

  /** Different partitions never grow into the same list. */
  lemma GrowsInjective(p: seq<int>, p': seq<int>, q: seq<int>)
    requires Positive(p) && Positive(p') && Grows(p, q) && Grows(p', q)
    ensures p == p'
  {
    if q[0] == 1 {
      assert q[1..] == p && q[1..] == p';
    } else {
      assert p == [p[0]] + p[1..] && p' == [p'[0]] + p'[1..];
      assert p[1..] == q[1..] == p'[1..];
    }
  }

  lemma {:induction false} GrowDistinct(ps: seq<seq<int>>)
    requires Distinct(ps) && forall p :: p in ps ==> Positive(p)
    ensures Distinct(Grow(ps))
    decreases |ps|
  {
    if ps != [] {
      var p := ps[0];
      var head := [[1] + p] + (if CanRaise(p) then [[p[0] + 1] + p[1..]] else []);
      GrowDistinct(ps[1..]);
      assert p in ps;
      assert Distinct(head) by {
        if CanRaise(p) {
          assert head[0][0] == 1 && head[1][0] == p[0] + 1;
        }
      }
      forall x | x in head ensures x !in Grow(ps[1..]) {
        if x in Grow(ps[1..]) {
          GrowMembers(ps[1..], x);
          var p' :| p' in ps[1..] && Grows(p', x);
          GrowsInjective(p, p', x);
          assert false;
        }
      }
      DistinctConcat(head, Grow(ps[1..]));
    }
  }

  /** The generator lists exactly the partitions of n, each once; for 0 only the empty list. */
  lemma {:induction false} PartitionsExact(n: nat)
    ensures Partitions(0) == [[]]
    ensures forall q :: q in Partitions(n) <==> IsPartition(q, n)
    ensures Distinct(Partitions(n))
  {
    if n == 0 {
      OnlyEmpty();
    } else {
      PartitionsExact(n - 1);
      GrowExact(Partitions(n - 1), n - 1);
      GrowDistinct(Partitions(n - 1));
    }
  }

  /** The empty list is the only partition of 0. */
  lemma OnlyEmpty()
    ensures forall q :: IsPartition(q, 0) <==> q == []
  {
    forall q | IsPartition(q, 0) ensures q == [] {
      if q != [] {
        assert q == [q[0]] + q[1..];
        SumCons(q[0], q[1..]);
        SumNonNegative(q[1..]);
      }
    }
  }

  /** Growing a list of exactly the partitions of n gives exactly the partitions of n + 1. */
  lemma GrowExact(ps: seq<seq<int>>, n: nat)
    requires forall p :: p in ps <==> IsPartition(p, n)
    ensures forall q :: q in Grow(ps) <==> IsPartition(q, n + 1)
  {
    forall q ensures q in Grow(ps) <==> IsPartition(q, n + 1) {
      GrowMembers(ps, q);
      if q in Grow(ps) {
        var p :| p in ps && Grows(p, q);
        GrowSound(p, q, n);
      }
      if IsPartition(q, n + 1) {
        GrowComplete(q, n);
      }
    }
  }

  /**
   * The distinct parts of `p` in order of first appearance. The frequency
   * dictionary has no defined order; this one is a choice of the model, and
   * nothing computed from it depends on the order.
   */
  function Keys(p: seq<int>): seq<int>
  {
    if p == [] then []
    else
      var ks := Keys(p[..|p| - 1]);
      if p[|p| - 1] in ks then ks else ks + [p[|p| - 1]]
  }

  lemma {:induction false} KeysExact(p: seq<int>)
    ensures Distinct(Keys(p)) && forall k :: k in Keys(p) <==> k in p
    decreases |p|
  {
    if p != [] {
      var init := p[..|p| - 1];
      KeysExact(init);
      assert p == init + [p[|p| - 1]];
    }
  }

  lemma KeysPositive(p: seq<int>)
    requires Positive(p)
    ensures forall i :: 0 <= i < |Keys(p)| ==> Keys(p)[i] >= 1
  {
    KeysExact(p);
    forall i | 0 <= i < |Keys(p)| ensures Keys(p)[i] >= 1 {
      assert Keys(p)[i] in p;
    }
  }

  /** The product of k^f · f! over the given parts k, f being the multiplicity of k in `p`. */
  function ClassDenominator(keys: seq<int>, p: seq<int>): int
  {
    if keys == [] then 1
    else
      var k := keys[|keys| - 1];
      var f := multiset(p)[k];
      ClassDenominator(keys[..|keys| - 1], p) * (Power(k, f) * Factorial(f))
  }

  lemma {:induction false} PowerPositive(b: int, e: nat)
    requires b >= 1
    ensures Power(b, e) >= 1
  {
    if e > 0 {
      PowerPositive(b, e - 1);
    }
  }

  lemma {:induction false} ClassDenominatorPositive(keys: seq<int>, p: seq<int>)
    requires forall i :: 0 <= i < |keys| ==> keys[i] >= 1
    ensures ClassDenominator(keys, p) >= 1
    decreases |keys|
  {
    if keys != [] {
      var k := keys[|keys| - 1];
      ClassDenominatorPositive(keys[..|keys| - 1], p);
      PowerPositive(k, multiset(p)[k]);
    }
  }

  lemma DenominatorSnoc(keys: seq<int>, j: int, p: seq<int>)
    requires 0 <= j < |keys|
    ensures ClassDenominator(keys[..j + 1], p)
            == ClassDenominator(keys[..j], p) * (Power(keys[j], multiset(p)[keys[j]]) * Factorial(multiset(p)[keys[j]]))
  {
    assert keys[..j + 1][..j] == keys[..j];
  }

  /** The number of permutations whose cycle lengths are the parts of `p`. */
  ghost function ClassSize(p: seq<int>): (size: int)
    requires Positive(p)
  {
    KeysPositive(p);
    ClassDenominatorPositive(Keys(p), p);
    SumNonNegative(p);
    Factorial(Sum(p)) / ClassDenominator(Keys(p), p)
  }

  /** Counts each part into `freqs`, then divides n! by the product of k^f · f! over the counts. */
  method ConjugacyClassSize(partition: seq<int>) returns (size: int)
    requires Positive(partition)
    ensures size == ClassSize(partition)
  {
    SumNonNegative(partition);
    var n := Sum(partition);
    var freqs, keys := CountParts(partition);
    KeysExact(partition);
    KeysPositive(partition);
    ClassDenominatorPositive(keys, partition);
    var denominator := 1;
    var j := 0;
    while j < |keys|
      invariant 0 <= j <= |keys|
      invariant denominator == ClassDenominator(keys[..j], partition)
    {
      var num := keys[j];
      assert num in keys;
      var f := freqs[num];
      DenominatorSnoc(keys, j, partition);
      denominator := denominator * (Power(num, f) * Factorial(f));
      j := j + 1;
    }
    assert keys[..j] == keys;
    size := Factorial(n) / denominator;
  }

  /** `freqs` maps exactly the parts seen so far to their multiplicities. */
  ghost predicate Tally(freqs: map<int, nat>, seen: seq<int>)
  {
    (forall k :: k in freqs <==> k in seen)
    && forall k :: k in freqs ==> freqs[k] == multiset(seen)[k]
  }

  /** Counting one more part: a new key only for a part not seen before, and one more of it. */
  lemma TallyStep(freqs: map<int, nat>, seen: seq<int>, p: int)
    requires Tally(freqs, seen)
    ensures p in freqs ==> Tally(freqs[p := freqs[p] + 1], seen + [p])
    ensures p !in freqs ==> Tally(freqs[p := 1], seen + [p])
    ensures Keys(seen + [p]) == if p in freqs then Keys(seen) else Keys(seen) + [p]
  {
    KeysExact(seen);
    assert (seen + [p])[..|seen|] == seen;
    var next := seen + [p];
    assert multiset(next) == multiset(seen) + multiset{p};
    var freqs' := if p in freqs then freqs[p := freqs[p] + 1] else freqs[p := 1];
    forall k ensures k in freqs' <==> k in next {
      assert k in next <==> k in seen || k == p;
    }
    forall k | k in freqs' ensures freqs'[k] == multiset(next)[k] {
      if k != p {
        assert k in freqs;
      }
    }
  }

  /** The frequency dictionary: each part's multiplicity, with its keys in order of first appearance. */
  method CountParts(partition: seq<int>) returns (freqs: map<int, nat>, keys: seq<int>)
    ensures keys == Keys(partition)
    ensures forall k :: k in freqs <==> k in partition
    ensures forall k :: k in freqs ==> freqs[k] == multiset(partition)[k]
  {
    freqs := map[];
    keys := [];
    var i := 0;
    while i < |partition|
      invariant 0 <= i <= |partition|
      invariant keys == Keys(partition[..i])
      invariant Tally(freqs, partition[..i])
    {
      var p := partition[i];
      assert partition[..i + 1] == partition[..i] + [p];
      TallyStep(freqs, partition[..i], p);
      if p in freqs {
        freqs := freqs[p := freqs[p] + 1];
      } else {
        freqs := freqs[p := 1];
        keys := keys + [p];
      }
      i := i + 1;
    }
    assert partition[..i] == partition;
  }

  /** The identity permutation is alone in its class. */
  lemma IdentityClass(n: nat)
    ensures Positive(seq(n, _ => 1)) && ClassSize(seq(n, _ => 1)) == 1
  {
    var ones := seq(n, _ => 1);
    OnesKeysAndSum(n);
    var ps := seq(n, _ => 1);
    assert Keys(ones) == (if n == 0 then [] else [1]);
    if n > 0 {
      assert multiset(ones)[1] == n by { OnesCount(n); }
      PowerOne(n);
      assert ClassDenominator([1], ones) == ClassDenominator([], ones) * (Power(1, n) * Factorial(n));
    }
  }

  lemma {:induction false} OnesKeysAndSum(n: nat)
    ensures Keys(seq(n, _ => 1)) == (if n == 0 then [] else [1])
    ensures Sum(seq(n, _ => 1)) == n
  {
    if n > 0 {
      OnesKeysAndSum(n - 1);
      assert seq(n, _ => 1)[..n - 1] == seq(n - 1, _ => 1);
    }
  }

  lemma {:induction false} OnesCount(n: nat)
    ensures multiset(seq(n, _ => 1))[1] == n
  {
    if n > 0 {
      OnesCount(n - 1);
      assert seq(n, _ => 1) == seq(n - 1, _ => 1) + [1];
    }
  }

  lemma {:induction false} PowerOne(e: nat)
    ensures Power(1, e) == 1
  {
    if e > 0 {
      PowerOne(e - 1);
    }
  }

  /** The n-cycles form a class of (n - 1)! permutations. */
  lemma CycleClass(n: nat)
    requires n >= 1
    ensures Positive([n]) && ClassSize([n]) == Factorial(n - 1)
  {
    assert [n][..0] == [];
    assert Keys([n]) == [n];
    assert multiset([n])[n] == 1;
    assert Power(n, 1) == n * Power(n, 0);
    assert ClassDenominator([n], [n]) == ClassDenominator([], [n]) * (Power(n, 1) * Factorial(1));
    assert Sum([n]) == n;
    DivideExact(Factorial(n), n, Factorial(n - 1));
  }

  lemma DivideExact(a: int, n: int, f: int)
    requires n >= 1 && a == n * f
    ensures a / n == f
  {
    var q, r := a / n, a % n;
    assert a == n * q + r && 0 <= r < n;
    // A quotient off by one or more would put the remainder outside [0, n).
    if q > f {
      MultiplyMonotone(n, f + 1, q);
    } else if q < f {
      MultiplyMonotone(n, q + 1, f);
    }
  }

  lemma {:induction false} MultiplyMonotone(n: nat, x: int, y: int)
    requires x <= y
    ensures n * x <= n * y
    decreases n
  {
    if n > 0 {
      MultiplyMonotone(n - 1, x, y);
      assert n * x == (n - 1) * x + x && n * y == (n - 1) * y + y;
    }
  }

  /** Sum of gcd(m, n) over the parts n of `rowPartition`. */
  function GcdRowSum(m: int, rowPartition: seq<int>): (sum: int)
    requires m >= 1 && Positive(rowPartition)
    ensures sum >= 0
  {
    if rowPartition == [] then 0
    else GcdRowSum(m, rowPartition[..|rowPartition| - 1]) + Gcd(m, rowPartition[|rowPartition| - 1])
  }

  /**
   * Sum of gcd(m, n) over every part m of `colPartition` and n of
   * `rowPartition`: the number of cell cycles that a column permutation and
   * a row permutation of these cycle types induce together.
   */
  function FixedPointsExponent(colPartition: seq<int>, rowPartition: seq<int>): (exponent: int)
    requires Positive(colPartition) && Positive(rowPartition)
    ensures exponent >= 0
  {
    if colPartition == [] then 0
    else FixedPointsExponent(colPartition[..|colPartition| - 1], rowPartition)
         + GcdRowSum(colPartition[|colPartition| - 1], rowPartition)
  }

  /** One Burnside term: the pairs of permutations of these cycle types, times the grids each pair fixes. */
  ghost function Term(colPartition: seq<int>, rowPartition: seq<int>, s: int): int
    requires Positive(colPartition) && Positive(rowPartition)
  {
    ClassSize(colPartition) * ClassSize(rowPartition) * Power(s, FixedPointsExponent(colPartition, rowPartition))
  }

  ghost function RowTotal(colPartition: seq<int>, rowPartitions: seq<seq<int>>, s: int): int
    requires Positive(colPartition) && AllPositive(rowPartitions)
  {
    if rowPartitions == [] then 0
    else RowTotal(colPartition, rowPartitions[..|rowPartitions| - 1], s)
         + Term(colPartition, rowPartitions[|rowPartitions| - 1], s)
  }

  /** The Burnside sum over every pair of a column cycle type and a row cycle type. */
  ghost function BurnsideTotal(colPartitions: seq<seq<int>>, rowPartitions: seq<seq<int>>, s: int): int
    requires AllPositive(colPartitions) && AllPositive(rowPartitions)
  {
    if colPartitions == [] then 0
    else BurnsideTotal(colPartitions[..|colPartitions| - 1], rowPartitions, s)
         + RowTotal(colPartitions[|colPartitions| - 1], rowPartitions, s)
  }

  /** The gcd sum over every pair of parts, column part by column part. */
  method FixedPointsExponentOf(colPartition: seq<int>, rowPartition: seq<int>) returns (exponent: int)
    requires Positive(colPartition) && Positive(rowPartition)
    ensures exponent == FixedPointsExponent(colPartition, rowPartition)
  {
    exponent := 0;
    var i := 0;
    while i < |colPartition|
      invariant 0 <= i <= |colPartition|
      invariant exponent == FixedPointsExponent(colPartition[..i], rowPartition)
    {
      var m := colPartition[i];
      var j := 0;
      while j < |rowPartition|
        invariant 0 <= j <= |rowPartition|
        invariant exponent == FixedPointsExponent(colPartition[..i], rowPartition) + GcdRowSum(m, rowPartition[..j])
      {
        var n := rowPartition[j];
        assert rowPartition[..j + 1][..j] == rowPartition[..j];
        exponent := exponent + Gcd(m, n);
        j := j + 1;
      }
      assert rowPartition[..j] == rowPartition;
      assert colPartition[..i + 1][..i] == colPartition[..i];
      i := i + 1;
    }
    assert colPartition[..i] == colPartition;
  }

  /**
   * The number of w × h grids over s states up to row and column
   * permutations: the Burnside sum over all cycle-type pairs, divided by
   * the order w! · h! of the group.
   */
  method Solution(w: nat, h: nat, s: int) returns (count: int)
    ensures count == BurnsideTotal(Partitions(h), Partitions(w), s) / (Factorial(w) * Factorial(h))
  {
    var sizeGroup := Factorial(w) * Factorial(h);
    var partitionsW := Partitions(w);
    var partitionsH := Partitions(h);
    var total := 0;
    var i := 0;
    while i < |partitionsH|
      invariant 0 <= i <= |partitionsH|
      invariant total == BurnsideTotal(partitionsH[..i], partitionsW, s)
    {
      var colPartition := partitionsH[i];
      var j := 0;
      while j < |partitionsW|
        invariant 0 <= j <= |partitionsW|
        invariant total == BurnsideTotal(partitionsH[..i], partitionsW, s) + RowTotal(colPartition, partitionsW[..j], s)
      {
        var rowPartition := partitionsW[j];
        var exponent := FixedPointsExponentOf(colPartition, rowPartition);
        var colClassSize := ConjugacyClassSize(colPartition);
        var rowClassSize := ConjugacyClassSize(rowPartition);
        assert partitionsW[..j + 1][..j] == partitionsW[..j];
        total := total + colClassSize * rowClassSize * Power(s, exponent);
        j := j + 1;
      }
      assert partitionsW[..j] == partitionsW;
      assert partitionsH[..i + 1][..i] == partitionsH[..i];
      i := i + 1;
    }
    assert partitionsH[..i] == partitionsH;
    count := total / sizeGroup;
  }

  /** One row has one cycle type: a single fixed point. */
  lemma OnePartition()
    ensures Partitions(1) == [[1]]
  {
    var empty: seq<int> := [];
    assert [empty][1..] == [] && [1] + empty == [1] && !CanRaise(empty);
    assert Partitions(1) == Grow([empty]);
  }

  lemma SingleTerm(s: int)
    ensures Positive([1]) && Term([1], [1], s) == s
  {
    CycleClass(1);
    assert FixedPointsExponent([1], [1]) == 1 by {
      assert [1][..0] == [];
    }
    assert Power(s, 1) == s * Power(s, 0);
  }

  /** A single cell has one grid per state. */
  lemma SingleCell(s: int)
    ensures BurnsideTotal(Partitions(1), Partitions(1), s) / (Factorial(1) * Factorial(1)) == s
  {
    OnePartition();
    SingleTerm(s);
    var one: seq<seq<int>> := [[1]];
    assert one[..0] == [];
    assert RowTotal([1], one, s) == s;
    assert BurnsideTotal(one, one, s) == s;
  }

  /** The cycle types of the permutations of two and of three rows, in the generator's order. */
  lemma SmallPartitions()
    ensures Partitions(2) == [[1, 1], [2]]
    ensures Partitions(3) == [[1, 1, 1], [1, 2], [3]]
  {
    OnePartition();
    var p1: seq<seq<int>> := [[1]];
    assert p1[1..] == [] && [1][1..] == [] && CanRaise([1]);
    assert Grow(p1) == [[1] + [1]] + [[1 + 1] + [1][1..]] + Grow([]);
    assert [1] + [1] == [1, 1] && [1 + 1] + [1][1..] == [2];
    var p2: seq<seq<int>> := [[1, 1], [2]];
    assert Partitions(2) == Grow(p1) == p2;
    assert !CanRaise([1, 1]) && CanRaise([2]) && p2[1..] == [[2]] && [[2]][1..] == [];
    assert Grow(p2) == [[1] + [1, 1]] + [] + Grow([[2]]);
    assert Grow([[2]]) == [[1] + [2]] + [[2 + 1] + [2][1..]] + Grow([]);
    assert [1] + [1, 1] == [1, 1, 1] && [1] + [2] == [1, 2] && [2 + 1] + [2][1..] == [3];
    assert Partitions(3) == Grow(p2);
  }

  lemma SmallIdentityClasses()
    ensures ClassSize([1, 1]) == 1 && ClassSize([1, 1, 1]) == 1
  {
    IdentityClass(2);
    IdentityClass(3);
    assert seq(2, _ => 1) == [1, 1] && seq(3, _ => 1) == [1, 1, 1];
  }

  lemma SmallCycleClasses()
    ensures ClassSize([2]) == 1 && ClassSize([3]) == 2
  {
    CycleClass(2);
    CycleClass(3);
  }

  /** A transposition fixing one point: three of the six permutations of three rows. */
  lemma TranspositionClass()
    ensures ClassSize([1, 2]) == 3
  {
    var p: seq<int> := [1, 2];
    assert p[..1] == [1] && p[..1][..0] == [];
    assert Keys(p) == [1, 2];
    assert multiset(p)[1] == 1 && multiset(p)[2] == 1;
    assert Power(2, 1) == 2 * Power(2, 0) && Power(1, 1) == 1 * Power(1, 0);
    var keys: seq<int> := [1, 2];
    assert keys[..1] == [1] && keys[..1][..0] == [];
    assert ClassDenominator([1], p) == 1;
    assert ClassDenominator(keys, p) == 2;
    assert Sum(p) == 3;
  }

  lemma SmallGcdRowSums()
    ensures GcdRowSum(1, [1, 1]) == 2 && GcdRowSum(1, [2]) == 1
    ensures GcdRowSum(2, [1, 1]) == 2 && GcdRowSum(2, [2]) == 2
  {
    var one: seq<int> := [1];
    var ones: seq<int> := [1, 1];
    assert ones[..1] == one && one[..0] == [] && [2][..0] == [];
    assert Gcd(2, 2) == 2 && Gcd(2, 1) == 1 && Gcd(1, 2) == 1 && Gcd(1, 1) == 1;
  }

  /** The cell cycles of the four pairs of permutation types on a 2 × 2 grid. */
  lemma SmallExponents()
    ensures FixedPointsExponent([1, 1], [1, 1]) == 4 && FixedPointsExponent([1, 1], [2]) == 2
    ensures FixedPointsExponent([2], [1, 1]) == 2 && FixedPointsExponent([2], [2]) == 2
  {
    SmallGcdRowSums();
    var one: seq<int> := [1];
    var ones: seq<int> := [1, 1];
    assert ones[..1] == one && one[..0] == [] && [2][..0] == [];
  }

  lemma SquareTerms()
    ensures Term([1, 1], [1, 1], 2) == 16 && Term([1, 1], [2], 2) == 4
    ensures Term([2], [1, 1], 2) == 4 && Term([2], [2], 2) == 4
  {
    SmallIdentityClasses();
    SmallCycleClasses();
    SmallExponents();
    assert Power(2, 4) == 16 && Power(2, 2) == 4;
  }

  lemma SquareTotal()
    ensures BurnsideTotal(Partitions(2), Partitions(2), 2) == 28
  {
    SmallPartitions();
    SquareTerms();
    var p2: seq<seq<int>> := [[1, 1], [2]];
    assert p2[..1] == [[1, 1]] && p2[..1][..0] == [];
    assert RowTotal([1, 1], p2, 2) == 16 + 4;
    assert RowTotal([2], p2, 2) == 4 + 4;
  }

  /** The worked example of 2 × 2 grids over 2 states. */
  lemma SquareCase()
    ensures BurnsideTotal(Partitions(2), Partitions(2), 2) / (Factorial(2) * Factorial(2)) == 7
  {
    SquareTotal();
    assert Factorial(2) * Factorial(2) == 4;
  }
}
