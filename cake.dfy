/**
 * The Cake is Not a Lie: cut the ring of M&Ms `s` into the largest number
 * of equal pieces. Prefix lengths are tried from 1 upwards; the first prefix
 * whose non-overlapping occurrences in `s` cover it exactly gives the answer,
 * and with none the whole cake is one piece.
 */
module CakeIsNotALie {

  /** `k` copies of `piece`, one after another. */
  function Repeat(piece: string, k: nat): (r: string)
    ensures |r| == k * |piece|
  {
    if k == 0 then [] else piece + Repeat(piece, k - 1)
  }

  /**
   * Python's `s.count(sub)` from position `pos` on: occurrences found left to
   * right, each search resuming after the occurrence just found.
   */
  function CountFrom(s: string, sub: string, pos: nat): nat
    requires sub != [] && pos <= |s|
    decreases |s| - pos
  {
    if pos + |sub| > |s| then 0
    else if s[pos..pos + |sub|] == sub then 1 + CountFrom(s, sub, pos + |sub|)
    else CountFrom(s, sub, pos + 1)
  }

  function Count(s: string, sub: string): nat
    requires sub != []
  {
    CountFrom(s, sub, 0)
  }

  /** `s` is `k` equal pieces: its first |s| / k characters repeated `k` times. */
  ghost predicate IsSplit(s: string, k: int)
  {
    k >= 1 && |s| % k == 0 && s == Repeat(s[..|s| / k], k)
  }

  lemma MulSucc(a: nat, b: nat)
    ensures (1 + a) * b == b + a * b
  {
  }

  /** A product of `n` pieces of length `i` that is the whole length fixes both quotients. */
  lemma Quotients(n: int, i: int, len: int)
    requires n >= 1 && i >= 1 && n * i == len
    ensures len / n == i && len % n == 0 && len / i == n
  {
    DivExact(n, i);
    DivExact(i, n);
  }

  /** Euclidean division undoes a multiplication. */
  lemma DivExact(n: int, i: int)
    requires n >= 1 && i >= 0
    ensures (n * i) / n == i && (n * i) % n == 0
  {
    var len := n * i;
    var q, r := len / n, len % n;
    assert n * q + r == len;
    assert n * (q - i) == -r;
    MulAtLeast(n, q - i);
    MulAtLeast(n, i - q);
  }

  lemma MulAtLeast(n: int, d: int)
    requires n >= 1
    ensures d >= 1 ==> n * d >= n
  {
  }

  /**
   * The occurrences counted never take more room than the rest of `s`, and
   * when they take all of it, the rest of `s` is `sub` repeated.
   */
  lemma {:induction false} CountTiles(s: string, sub: string, pos: nat)
    requires sub != [] && pos <= |s|
    ensures CountFrom(s, sub, pos) * |sub| <= |s| - pos
    ensures CountFrom(s, sub, pos) * |sub| == |s| - pos ==> s[pos..] == Repeat(sub, CountFrom(s, sub, pos))
    decreases |s| - pos
  {
    if pos + |sub| > |s| {
    } else if s[pos..pos + |sub|] == sub {
      var rest := CountFrom(s, sub, pos + |sub|);
      CountTiles(s, sub, pos + |sub|);
      MulSucc(rest, |sub|);
      assert s[pos..] == s[pos..pos + |sub|] + s[pos + |sub|..];
    } else {
      CountTiles(s, sub, pos + 1);
    }
  }

  /** When the rest of `s` is `sub` repeated `k` times, `count` finds exactly `k` occurrences. */
  lemma {:induction false} RepeatCount(s: string, sub: string, pos: nat, k: nat)
    requires sub != [] && pos <= |s| && s[pos..] == Repeat(sub, k)
    ensures CountFrom(s, sub, pos) == k
    decreases k
  {
    if k > 0 {
      assert s[pos..][..|sub|] == sub && s[pos..][|sub|..] == Repeat(sub, k - 1);
      assert s[pos..pos + |sub|] == sub && s[pos + |sub|..] == Repeat(sub, k - 1);
      RepeatCount(s, sub, pos + |sub|, k - 1);
    }
  }

  /** Splitting into `k` >= 2 pieces makes the piece a proper prefix that `count` finds `k` times. */
  lemma SplitCounted(s: string, k: int)
    requires IsSplit(s, k) && k >= 2 && |s| >= 1
    ensures 1 <= |s| / k < |s| && Count(s, s[..|s| / k]) * (|s| / k) == |s|
  {
    var i := |s| / k;
    assert i * k == |s|;
    assert i >= 1;
    assert s[0..] == s;
    RepeatCount(s, s[..i], 0, k);
  }

  /** Equal totals, and the second piece no shorter than the first: the second cut has no more pieces. */
  lemma FewerPieces(a: int, i: int, b: int, j: int)
    requires 1 <= i <= j && a >= 0 && b >= 0 && a * i == b * j
    ensures b <= a
  {
    assert b * j >= b * i;
  }

  /**
   * `pieces` is at least one, and for a non-empty cake it is the largest
   * number of equal pieces the cake splits into.
   */
  ghost predicate Largest(s: string, pieces: int)
  {
    pieces >= 1 && (|s| >= 1 ==> IsSplit(s, pieces) && forall k :: IsSplit(s, k) ==> k <= pieces)
  }

  /** The piece count of `solution`. */
  method Solution(s: string) returns (pieces: int)
    ensures Largest(s, pieces)
  {
    var i := 1;
    while i < |s|
      invariant 1 <= i && (|s| >= 1 ==> i <= |s|)
      invariant forall j :: 1 <= j < i && j < |s| ==> Count(s, s[..j]) * j != |s|
    {
      var substring := s[..i];
      var nOccurrences := Count(s, substring);
      if nOccurrences * i == |s| {
        CountTiles(s, substring, 0);
        assert s[0..] == s;
        Quotients(nOccurrences, i, |s|);
        forall k | IsSplit(s, k) ensures k <= nOccurrences {
          if k >= 2 {
            SplitCounted(s, k);
            FewerPieces(nOccurrences, i, k, |s| / k);
          }
        }
        return |s| / i;
      }
      i := i + 1;
    }
    if |s| >= 1 {
      assert Repeat(s, 1) == s;
      forall k | IsSplit(s, k) ensures k <= 1 {
        if k >= 2 {
          SplitCounted(s, k);
        }
      }
    }
    return 1;
  }

  /** A non-empty cake has no more pieces than M&Ms. */
  lemma SplitBound(s: string, k: int)
    requires |s| >= 1 && IsSplit(s, k)
    ensures k <= |s|
  {
    var i := |s| / k;
    assert k * i == |s|;
    MulAtLeast(k, i);
  }

  lemma DivisorsOfTwelve(k: int)
    requires 1 <= k <= 12 && 12 % k == 0
    ensures k == 1 || k == 2 || k == 3 || k == 4 || k == 6 || k == 12
  {
  }

  /** The first official case: "abcabcabcabc" splits into at most 4 pieces. */
  lemma FourPieces(pieces: int)
    requires Largest("abcabcabcabc", pieces)
    ensures pieces == 4
  {
    var s := "abcabcabcabc";
    assert s[..3] == "abc" && Repeat("abc", 4) == s;
    assert IsSplit(s, 4);
    forall k | 4 < k ensures !IsSplit(s, k) {
      if IsSplit(s, k) {
        SplitBound(s, k);
        DivisorsOfTwelve(k);
      }
      if k == 6 {
        assert s[..2] == "ab" && Repeat("ab", 6)[2] != s[2];
      } else if k == 12 {
        assert s[..1] == "a" && Repeat("a", 12)[1] != s[1];
      }
    }
  }

  /** The second official case: "abccbaabccba" splits into at most 2 pieces. */
  lemma TwoPieces(pieces: int)
    requires Largest("abccbaabccba", pieces)
    ensures pieces == 2
  {
    var s := "abccbaabccba";
    assert s[..6] == "abccba" && Repeat("abccba", 2) == s;
    assert IsSplit(s, 2);
    forall k | 2 < k ensures !IsSplit(s, k) {
      if IsSplit(s, k) {
        SplitBound(s, k);
        DivisorsOfTwelve(k);
      }
      if k == 3 {
        assert s[..4] == "abcc" && Repeat("abcc", 3)[4] != s[4];
      } else if k == 4 {
        assert s[..3] == "abc" && Repeat("abc", 4)[3] != s[3];
      } else if k == 6 {
        assert s[..2] == "ab" && Repeat("ab", 6)[2] != s[2];
      } else if k == 12 {
        assert s[..1] == "a" && Repeat("a", 12)[1] != s[1];
      }
    }
  }

  lemma SmallDivisors(k: int, n: int)
    requires 1 <= k <= n <= 5 && n % k == 0
    ensures k == 1 || k == n || (n == 4 && k == 2)
  {
  }

  /** "a" is one piece. */
  lemma OnePieceOfOne(pieces: int)
    requires Largest("a", pieces)
    ensures pieces == 1
  {
    SplitBound("a", pieces);
  }

  /** "aaa" splits into three pieces, one M&M each. */
  lemma ThreeOfThree(pieces: int)
    requires Largest("aaa", pieces)
    ensures pieces == 3
  {
    var s := "aaa";
    assert s[..1] == "a" && Repeat("a", 3) == s;
    assert IsSplit(s, 3);
    SplitBound(s, pieces);
  }

  /** "abab" splits into two pieces "ab", not four. */
  lemma TwoOfFour(pieces: int)
    requires Largest("abab", pieces)
    ensures pieces == 2
  {
    var s := "abab";
    assert s[..2] == "ab" && Repeat("ab", 2) == s;
    assert IsSplit(s, 2);
    SplitBound(s, pieces);
    SmallDivisors(pieces, 4);
    if pieces == 4 {
      assert s[..1] == "a" && Repeat("a", 4)[1] != s[1];
    }
  }

  /** A cake of three or five M&Ms that is not all one colour does not split. */
  lemma Unsplit(s: string, pieces: int)
    requires (|s| == 3 || |s| == 5) && (s[1] != s[0] || s[2] != s[0])
    requires Largest(s, pieces)
    ensures pieces == 1
  {
    SplitBound(s, pieces);
    SmallDivisors(pieces, |s|);
    if pieces == |s| {
      assert |s| / pieces == 1;
      assert s[..1] == [s[0]];
      RepeatOne(s[0], |s|, 1);
      RepeatOne(s[0], |s|, 2);
    }
  }

  /** Repeating a single M&M gives that M&M everywhere. */
  lemma {:induction false} RepeatOne(c: char, k: nat, t: nat)
    requires t < k
    ensures Repeat([c], k)[t] == c
  {
    if t > 0 {
      RepeatOne(c, k - 1, t - 1);
    }
  }

  /** The unofficial cases "aba", "aab" and "ababc" are one piece each. */
  lemma OnePieceEach(p1: int, p2: int, p3: int)
    requires Largest("aba", p1) && Largest("aab", p2) && Largest("ababc", p3)
    ensures p1 == 1 && p2 == 1 && p3 == 1
  {
    Unsplit("aba", p1);
    Unsplit("aab", p2);
    Unsplit("ababc", p3);
  }
}
