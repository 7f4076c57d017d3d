/**
 * Bomb, Baby!: starting from one Mach and one Facula bomb, each generation
 * replaces one count by the sum of both. The number of generations that
 * produce exactly (x, y) is found by walking back to (1, 1), subtracting the
 * smaller count from the larger as many times at once as a division allows.
 */
module BombBaby {
  import opened Common

  /** The answer: a number of generations, or 'impossible'. */
  datatype Answer = Generations(count: nat) | Impossible

  /**
   * (mach, facula) arises from (1, 1) after exactly `k` generations: the last
   * generation either added facula to mach or mach to facula.
   */
  ghost predicate Reaches(mach: int, facula: int, k: nat)
    decreases k
  {
    if k == 0 then mach == 1 && facula == 1
    else
      (facula >= 1 && mach - facula >= 1 && Reaches(mach - facula, facula, k - 1))
      || (mach >= 1 && facula - mach >= 1 && Reaches(mach, facula - mach, k - 1))
  }

  function Add(steps: Option<nat>, n: nat): Option<nat>
  {
    if steps.None? then None else Some(steps.value + n)
  }

  function ToAnswer(steps: Option<nat>): Answer
  {
    if steps.None? then Impossible else Generations(steps.value)
  }

  /**
   * The slow reverse walk: stop with the count at (1, 1), give up on equal
   * counts or a count below 1, otherwise subtract the smaller count from the
   * larger and count one generation.
   */
  function ReverseSteps(mach: int, facula: int): Option<nat>
    decreases mach + facula
  {
    if mach < 1 || facula < 1 then None
    else if mach == 1 && facula == 1 then Some(0)
    else if mach == facula then None
    else if mach > facula then Add(ReverseSteps(mach - facula, facula), 1)
    else Add(ReverseSteps(mach, facula - mach), 1)
  }

  /** The reverse walk finds exactly the generation counts that reach the pair. */
  lemma {:induction false} ReverseStepsExact(mach: int, facula: int, k: nat)
    ensures Reaches(mach, facula, k) <==> ReverseSteps(mach, facula) == Some(k)
    decreases k
  {
    if k > 0 {
      if mach - facula >= 1 && facula >= 1 {
        ReverseStepsExact(mach - facula, facula, k - 1);
      } else if facula - mach >= 1 && mach >= 1 {
        ReverseStepsExact(mach, facula - mach, k - 1);
      }
    }
  }

  /** From (m, 1) or (1, m) the walk back takes m - 1 generations. */
  lemma {:induction false} OneLeft(m: int)
    requires m >= 1
    ensures ReverseSteps(m, 1) == Some(m - 1) && ReverseSteps(1, m) == Some(m - 1)
    decreases m
  {
    if m > 1 {
      OneLeft(m - 1);
    }
  }

  /** `q` copies of `b` added up: what subtracting `b` `q` times takes away. */
  function Times(q: nat, b: nat): (t: nat)
    ensures q >= 1 ==> t >= b
  {
    if q == 0 then 0 else b + Times(q - 1, b)
  }

  lemma {:induction false} TimesIsProduct(q: nat, b: nat)
    ensures Times(q, b) == q * b
  {
    if q > 0 {
      TimesIsProduct(q - 1, b);
    }
  }

  /**
   * Subtracting facula `q` times at once lands where the slow walk lands
   * after `q` steps, when mach = q * facula + r with 0 <= r < facula.
   */
  lemma {:induction false} DivideMach(mach: int, facula: nat, q: nat, r: int)
    requires facula >= 2 && q >= 1 && 0 <= r < facula && mach == Times(q, facula) + r
    ensures ReverseSteps(mach, facula) == Add(ReverseSteps(r, facula), q)
    decreases q
  {
    if q > 1 {
      DivideMach(mach - facula, facula, q - 1, r);
    }
  }

  lemma {:induction false} DivideFacula(mach: nat, facula: int, q: nat, r: int)
    requires mach >= 2 && q >= 1 && 0 <= r < mach && facula == Times(q, mach) + r
    ensures ReverseSteps(mach, facula) == Add(ReverseSteps(mach, r), q)
    decreases q
  {
    if q > 1 {
      DivideFacula(mach, facula - mach, q - 1, r);
    }
  }

  /** Walking back from (x, y) has so far counted `count` generations and reached (mach, facula). */
  ghost predicate WalkedBack(x: int, y: int, mach: int, facula: int, count: nat)
  {
    ReverseSteps(x, y) == Add(ReverseSteps(mach, facula), count)
  }

  lemma FinishWalk(x: int, y: int, mach: int, facula: int, count: nat)
    requires WalkedBack(x, y, mach, facula, count) && mach >= 1 && facula >= 1 && (mach == 1 || facula == 1)
    ensures ReverseSteps(x, y) == Some(count + (if mach > facula then mach else facula) - 1)
  {
    OneLeft(if mach == 1 then facula else mach);
  }

  /** Dividing the larger count by the smaller one: a positive quotient and a remainder below the divisor. */
  lemma DivideLarger(a: int, b: int)
    requires a >= b >= 1
    ensures a == (a / b) * b + a % b && 0 <= a % b < b && a / b >= 1
  {
  }

  /** The division-accelerated walk back from (x, y) to (1, 1). */
  method ReverseDivide(x: int, y: int) returns (answer: Answer)
    ensures answer == ToAnswer(ReverseSteps(x, y))
  {
    var mach := x;
    var facula := y;
    var count := 0;
    while mach >= 1 && facula >= 1
      invariant count >= 0
      invariant WalkedBack(x, y, mach, facula, count)
      decreases mach + facula
    {
      if mach == 1 || facula == 1 {
        FinishWalk(x, y, mach, facula, count);
        count := count + if mach > facula then mach else facula;
        return Generations(count - 1);
      }
      if mach > facula {
        DivideLarger(mach, facula);
        var q, r := mach / facula, mach % facula;
        TimesIsProduct(q, facula);
        DivideMach(mach, facula, q, r);
        count := count + q;
        mach := r;
      } else {
        DivideLarger(facula, mach);
        var q, r := facula / mach, facula % mach;
        TimesIsProduct(q, mach);
        DivideFacula(mach, facula, q, r);
        count := count + q;
        facula := r;
      }
    }
    return Impossible;
  }

  /** The guard as written: any two equal counts are 'impossible', (1, 1) included. */
  method SolutionAsWritten(x: int, y: int) returns (answer: Answer)
    ensures x == y ==> answer == Impossible
    ensures x != y ==> answer == ToAnswer(ReverseSteps(x, y))
  {
    if x == y {
      return Impossible;
    }
    answer := ReverseDivide(x, y);
  }

  /** (1, 1) is the starting pair itself: zero generations, yet the guard above answers 'impossible'. */
  lemma StartPairNeedsNoGenerations()
    ensures Reaches(1, 1, 0)
    ensures forall k: nat :: Reaches(1, 1, k) <==> k == 0
  {
    forall k: nat ensures Reaches(1, 1, k) <==> k == 0 {
      ReverseStepsExact(1, 1, k);
    }
  }

  /**
   * The number of generations that produce exactly `x` Mach and `y` Facula
   * bombs, or 'impossible'; equal counts other than (1, 1) are rejected at once.
   */
  method Solution(x: int, y: int) returns (answer: Answer)
    ensures forall k: nat :: Reaches(x, y, k) <==> answer == Generations(k)
    ensures answer == Impossible <==> forall k: nat :: !Reaches(x, y, k)
  {
    if x == y && x != 1 {
      answer := Impossible;
    } else {
      answer := ReverseDivide(x, y);
    }
    forall k: nat ensures Reaches(x, y, k) <==> answer == ToAnswer(ReverseSteps(x, y)) == Generations(k) {
      ReverseStepsExact(x, y, k);
    }
    if answer.Generations? {
      ReverseStepsExact(x, y, answer.count);
    }
  }
  /** A pair the reverse walk brings back in `n` generations is reached after `n` generations and no other count. */
  lemma ReachedExactlyAt(x: int, y: int, n: nat)
    requires ReverseSteps(x, y) == Some(n)
    ensures forall k: nat :: Reaches(x, y, k) <==> k == n
  {
    forall k: nat ensures Reaches(x, y, k) <==> k == n {
      ReverseStepsExact(x, y, k);
    }
  }

  /** The first official case: ('2', '1') is reached after exactly one generation, so the answer is '1'. */
  lemma FirstOfficialCase()
    ensures forall k: nat :: Reaches(2, 1, k) <==> k == 1
  {
    assert ReverseSteps(2, 1) == Some(1);
    ReachedExactlyAt(2, 1, 1);
  }

  /** The second official case: ('4', '7') is reached after exactly four generations, so the answer is '4'. */
  lemma SecondOfficialCase()
    ensures forall k: nat :: Reaches(4, 7, k) <==> k == 4
  {
    assert ReverseSteps(1, 3) == Some(2);
    assert ReverseSteps(4, 7) == Some(4);
    ReachedExactlyAt(4, 7, 4);
  }

  /** The case from the puzzle text: ('2', '4') is never reached, so the answer is 'impossible'. */
  lemma UnreachablePair()
    ensures forall k: nat :: !Reaches(2, 4, k)
  {
    assert ReverseSteps(2, 4) == None;
    forall k: nat ensures !Reaches(2, 4, k) {
      ReverseStepsExact(2, 4, k);
    }
  }
}
