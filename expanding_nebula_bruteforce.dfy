/**
 * Expanding Nebula, brute-force version: every preimage of the whole grid
 * is built as a chain of encoded column pairs, one pair a column, each
 * pair's left column equal to the previous pair's right column; the answer
 * is the number of chains.
 */
module ExpandingNebulaBruteForce {
  import opened Common
  import opened Nebula

  /** Every entry of `pairs` is a [left, right] pair. */
  ghost predicate AllPairs(pairs: seq<seq<int>>)
  {
    forall k :: 0 <= k < |pairs| ==> |pairs[k]| == 2
  }

  /** `state` followed by every pair whose left column is the state's last column, in the order of `pairs`. */
  function JoinOne(state: seq<int>, pairs: seq<seq<int>>): (joined: seq<seq<int>>)
    requires state != [] && AllPairs(pairs)
    ensures NoneEmpty(joined)
  {
    if pairs == [] then []
    else
      var cp := pairs[|pairs| - 1];
      var last := if state[|state| - 1] == cp[0] then [state + cp] else [];
      JoinOne(state, pairs[..|pairs| - 1]) + last
  }

  /** Every state of `states` joined in turn, in the order of `states`. */
  function Join(states: seq<seq<int>>, pairs: seq<seq<int>>): (joined: seq<seq<int>>)
    requires NoneEmpty(states) && AllPairs(pairs)
    ensures NoneEmpty(joined)
  {
    if states == [] then []
    else Join(states[..|states| - 1], pairs) + JoinOne(states[|states| - 1], pairs)
  }

  /** The pair lists of every column. */
  ghost predicate AllTables(table: seq<seq<seq<int>>>)
  {
    forall j :: 0 <= j < |table| ==> AllPairs(table[j])
  }

  /** The listed pairs of each column in turn. */
  function PairTable(cols: seq<seq<bool>>): (table: seq<seq<seq<int>>>)
    ensures |table| == |cols| && AllTables(table)
  {
    if cols == [] then [] else PairTable(cols[..|cols| - 1]) + [Pairs(cols[|cols| - 1])]
  }

  /**
   * The chains for columns whose pair lists are `table`, in the order the
   * brute-force loop builds them.
   */
  function Chains(table: seq<seq<seq<int>>>): (chains: seq<seq<int>>)
    requires table != [] && AllTables(table)
    ensures NoneEmpty(chains)
  {
    var pairs := table[|table| - 1];
    if |table| == 1 then pairs
    else Join(Chains(table[..|table| - 1]), pairs)
  }

  /**
   * A chain for `table`: two entries a column, entries 2j and 2j + 1 a
   * listed pair of column j, and each pair's left column the previous
   * pair's right column.
   */
  ghost predicate IsChain(s: seq<int>, table: seq<seq<seq<int>>>)
  {
    |s| == 2 * |table|
    && (forall j :: 0 <= j < |table| ==> [Left(s, j), Right(s, j)] in table[j])
    && forall j :: 0 < j < |table| ==> Left(s, j) == Right(s, j - 1)
  }

  lemma {:induction false} JoinOneMembers(state: seq<int>, pairs: seq<seq<int>>, s: seq<int>)
    requires state != [] && AllPairs(pairs)
    ensures s in JoinOne(state, pairs) <==> exists cp :: cp in pairs && state[|state| - 1] == cp[0] && s == state + cp
    decreases |pairs|
  {
    if pairs != [] {
      var init, cp := pairs[..|pairs| - 1], pairs[|pairs| - 1];
      assert pairs == init + [cp];
      JoinOneMembers(state, init, s);
    }
  }

  lemma {:induction false} JoinMembers(states: seq<seq<int>>, pairs: seq<seq<int>>, s: seq<int>)
    requires NoneEmpty(states) && AllPairs(pairs)
    ensures s in Join(states, pairs) <==>
      exists state, cp :: state in states && cp in pairs && state[|state| - 1] == cp[0] && s == state + cp
    decreases |states|
  {
    if states != [] {
      var init, last := states[..|states| - 1], states[|states| - 1];
      assert states == init + [last];
      JoinMembers(init, pairs, s);
      JoinOneMembers(last, pairs, s);
    }
  }

  /** Entry 2j of a chain: the left column of its j-th pair. */
  function Left(s: seq<int>, j: nat): int
    requires 2 * j + 1 < |s|
  {
    s[2 * j]
  }

  /** Entry 2j + 1 of a chain: the right column of its j-th pair. */
  function Right(s: seq<int>, j: nat): int
    requires 2 * j + 1 < |s|
  {
    s[2 * j + 1]
  }

  /** A chain for `cols` followed by a fitting pair of column `c` is a chain for `cols + [c]`. */
  lemma ChainSnoc(state: seq<int>, cols: seq<seq<seq<int>>>, c: seq<seq<int>>, cp: seq<int>)
    requires cols != [] && IsChain(state, cols) && AllPairs(c) && cp in c && state[|state| - 1] == cp[0]
    ensures IsChain(state + cp, cols + [c])
  {
    var s, n := state + cp, |cols|;
    var k :| 0 <= k < |c| && c[k] == cp;
    assert cp == [cp[0], cp[1]];
    forall j | 0 <= j <= n ensures [Left(s, j), Right(s, j)] in (cols + [c])[j] {
      if j < n {
        assert Left(s, j) == Left(state, j) && Right(s, j) == Right(state, j);
      } else {
        assert [Left(s, j), Right(s, j)] == cp;
      }
    }
    forall j | 0 < j <= n ensures Left(s, j) == Right(s, j - 1) {
      if j < n {
        assert Left(s, j) == Left(state, j) && Right(s, j - 1) == Right(state, j - 1);
      }
    }
  }

  /** A chain for `cols + [c]` is a chain for `cols` followed by a fitting pair of column `c`. */
  lemma ChainInit(s: seq<int>, cols: seq<seq<seq<int>>>, c: seq<seq<int>>)
    requires cols != [] && IsChain(s, cols + [c])
    ensures IsChain(s[..2 * |cols|], cols)
    ensures [s[2 * |cols|], s[2 * |cols| + 1]] in c
    ensures s[2 * |cols| - 1] == s[2 * |cols|]
    ensures s == s[..2 * |cols|] + [s[2 * |cols|], s[2 * |cols| + 1]]
  {
    var n := |cols|;
    var state := s[..2 * n];
    assert [Left(s, n), Right(s, n)] in (cols + [c])[n];
    assert Left(s, n) == Right(s, n - 1);
    forall j | 0 <= j < n ensures [Left(state, j), Right(state, j)] in cols[j] {
      assert [Left(s, j), Right(s, j)] in (cols + [c])[j];
    }
    forall j | 0 < j < n ensures Left(state, j) == Right(state, j - 1) {
      assert Left(s, j) == Right(s, j - 1);
    }
  }

  /** With one column, the chains are its pairs. */
  lemma ChainsOfOne(table: seq<seq<seq<int>>>, s: seq<int>)
    requires |table| == 1 && AllTables(table)
    ensures s in Chains(table) <==> IsChain(s, table)
  {
    var pairs := table[0];
    if s in pairs {
      var k :| 0 <= k < |pairs| && pairs[k] == s;
      assert [Left(s, 0), Right(s, 0)] == s;
    }
    if IsChain(s, table) {
      assert [Left(s, 0), Right(s, 0)] in table[0];
      assert s == [Left(s, 0), Right(s, 0)];
    }
  }

  /** Every chain built is a chain for the columns. */
  lemma {:induction false} ChainsSound(table: seq<seq<seq<int>>>, s: seq<int>)
    requires table != [] && AllTables(table) && s in Chains(table)
    ensures IsChain(s, table)
    decreases |table|
  {
    var n := |table| - 1;
    if n == 0 {
      ChainsOfOne(table, s);
    } else {
      var init, pairs := table[..n], table[n];
      JoinMembers(Chains(init), pairs, s);
      var state, cp :| state in Chains(init) && cp in pairs && state[|state| - 1] == cp[0] && s == state + cp;
      ChainsSound(init, state);
      ChainSnoc(state, init, pairs, cp);
      assert init + [pairs] == table;
    }
  }

  lemma JoinComplete(states: seq<seq<int>>, pairs: seq<seq<int>>, state: seq<int>, cp: seq<int>, s: seq<int>)
    requires NoneEmpty(states) && AllPairs(pairs)
    requires state in states && cp in pairs && state[|state| - 1] == cp[0] && s == state + cp
    ensures s in Join(states, pairs)
  {
    JoinMembers(states, pairs, s);
  }

  /** Every chain for the columns is built. */
  lemma {:induction false} ChainsComplete(table: seq<seq<seq<int>>>, s: seq<int>)
    requires table != [] && AllTables(table) && IsChain(s, table)
    ensures s in Chains(table)
    decreases |table|
  {
    var n := |table| - 1;
    if n == 0 {
      ChainsOfOne(table, s);
    } else {
      var init, pairs := table[..n], table[n];
      assert init + [pairs] == table;
      ChainInit(s, init, pairs);
      var state, cp := s[..2 * n], [s[2 * n], s[2 * n + 1]];
      ChainsComplete(init, state);
      JoinComplete(Chains(init), pairs, state, cp, s);
    }
  }

  /** The chains built are exactly the chains for the columns. */
  lemma ChainsExact(table: seq<seq<seq<int>>>, s: seq<int>)
    requires table != [] && AllTables(table)
    ensures s in Chains(table) <==> IsChain(s, table)
  {
    if s in Chains(table) {
      ChainsSound(table, s);
    }
    if IsChain(s, table) {
      ChainsComplete(table, s);
    }
  }

  /** The chains of one more column are the chains so far joined with that column's pairs. */
  lemma ChainsPrefix(table: seq<seq<seq<int>>>, i: nat)
    requires i < |table| && AllTables(table)
    ensures i == 0 ==> Chains(table[..1]) == table[0]
    ensures i > 0 ==> Chains(table[..i + 1]) == Join(Chains(table[..i]), table[i])
  {
    assert table[..i + 1][..i] == table[..i];
  }

  /** Joining one state with pairs none of which is listed twice lists no sequence twice. */
  lemma {:induction false} JoinOneDistinct(state: seq<int>, pairs: seq<seq<int>>)
    requires state != [] && AllPairs(pairs) && Distinct(pairs)
    ensures Distinct(JoinOne(state, pairs))
    decreases |pairs|
  {
    if pairs != [] {
      var init, cp := pairs[..|pairs| - 1], pairs[|pairs| - 1];
      JoinOneDistinct(state, init);
      var last := if state[|state| - 1] == cp[0] then [state + cp] else [];
      forall s | s in last ensures s !in JoinOne(state, init) {
        JoinOneMembers(state, init, s);
        forall cp' | cp' in init ensures s != state + cp' {
          var k :| 0 <= k < |init| && init[k] == cp';
          assert pairs[k] == cp';
          assert (state + cp')[|state|..] == cp' && s[|state|..] == cp;
        }
      }
      DistinctConcat(JoinOne(state, init), last);
    }
  }

  /** Joining states none of which is listed twice with such pairs lists no sequence twice. */
  lemma {:induction false} JoinDistinct(states: seq<seq<int>>, pairs: seq<seq<int>>)
    requires NoneEmpty(states) && Distinct(states) && AllPairs(pairs) && Distinct(pairs)
    ensures Distinct(Join(states, pairs))
    decreases |states|
  {
    if states != [] {
      var init, last := states[..|states| - 1], states[|states| - 1];
      JoinDistinct(init, pairs);
      JoinOneDistinct(last, pairs);
      forall s | s in JoinOne(last, pairs) ensures s !in Join(init, pairs) {
        JoinOneMembers(last, pairs, s);
        var cp :| cp in pairs && last[|last| - 1] == cp[0] && s == last + cp;
        forall state, cp' | state in init && cp' in pairs ensures s != state + cp' {
          var k :| 0 <= k < |init| && init[k] == state;
          assert states[k] == state;
          var j :| 0 <= j < |pairs| && pairs[j] == cp';
          assert |cp'| == 2 && |cp| == 2;
          assert (state + cp')[..|state|] == state && s[..|last|] == last;
        }
        JoinMembers(init, pairs, s);
      }
      DistinctConcat(Join(init, pairs), JoinOne(last, pairs));
    }
  }

  /** When no column lists a pair twice, no chain is built twice. */
  lemma {:induction false} ChainsDistinct(table: seq<seq<seq<int>>>)
    requires table != [] && AllTables(table)
    requires forall j :: 0 <= j < |table| ==> Distinct(table[j])
    ensures Distinct(Chains(table))
    decreases |table|
  {
    var n := |table| - 1;
    if n > 0 {
      var init := table[..n];
      ChainsDistinct(init);
      JoinDistinct(Chains(init), table[n]);
    }
  }

  /** No column's pair list holds a pair twice. */
  lemma {:induction false} PairTableDistinct(cols: seq<seq<bool>>)
    requires forall j :: 0 <= j < |cols| ==> cols[j] != []
    ensures forall j :: 0 <= j < |cols| ==> Distinct(PairTable(cols)[j])
    decreases |cols|
  {
    if cols != [] {
      var init := cols[..|cols| - 1];
      PairTableDistinct(init);
      PairsDistinct(cols[|cols| - 1]);
    }
  }

  /** The inner loops of the brute force: every state joined with every pair that continues it. */
  method JoinStates(possibleStates: seq<seq<int>>, currentPairs: seq<seq<int>>) returns (newStates: seq<seq<int>>)
    requires NoneEmpty(possibleStates) && AllPairs(currentPairs)
    ensures newStates == Join(possibleStates, currentPairs)
  {
    newStates := [];
    var i := 0;
    while i < |possibleStates|
      invariant 0 <= i <= |possibleStates|
      invariant newStates == Join(possibleStates[..i], currentPairs)
    {
      var ps := possibleStates[i];
      var k := 0;
      while k < |currentPairs|
        invariant 0 <= k <= |currentPairs|
        invariant newStates == Join(possibleStates[..i], currentPairs) + JoinOne(ps, currentPairs[..k])
      {
        var cp := currentPairs[k];
        assert currentPairs[..k + 1][..k] == currentPairs[..k];
        if ps[|ps| - 1] == cp[0] {
          newStates := newStates + [ps + cp];
        }
        k := k + 1;
      }
      assert currentPairs[..k] == currentPairs;
      assert possibleStates[..i + 1][..i] == possibleStates[..i];
      i := i + 1;
    }
    assert possibleStates[..i] == possibleStates;
  }

  /**
   * The number of preimages of `g` (a list of rows), counted as the number
   * of chains over its columns.
   */
  method Solution(g: seq<seq<bool>>) returns (count: int)
    requires g != [] && g[0] != [] && forall i :: 0 <= i < |g| ==> |g[i]| == |g[0]|
    ensures count == |Chains(PairTable(Transpose(g)))| && Distinct(Chains(PairTable(Transpose(g))))
  {
    var listOfCols := Transpose(g);
    count := CountChains(listOfCols);
    PairTableDistinct(listOfCols);
    ChainsDistinct(PairTable(listOfCols));
  }

  /** One more column appends its pairs to the table and joins them onto the chains. */
  lemma TableStep(cols: seq<seq<bool>>, i: int, table: seq<seq<seq<int>>>)
    requires 1 <= i < |cols| && table == PairTable(cols[..i])
    ensures table + [Pairs(cols[i])] == PairTable(cols[..i + 1])
    ensures Chains(table + [Pairs(cols[i])]) == Join(Chains(table), Pairs(cols[i]))
  {
    var next := table + [Pairs(cols[i])];
    assert cols[..i + 1][..i] == cols[..i];
    ChainsPrefix(next, i);
    assert next[..i] == table;
    assert next[..i + 1] == next;
  }

  /** The chaining loop of the brute-force `solution`, given the list of columns. */
  method CountChains(listOfCols: seq<seq<bool>>) returns (count: int)
    requires listOfCols != []
    ensures count == |Chains(PairTable(listOfCols))|
  {
    var first := PossibleColumnPairs(listOfCols[0]);
    var possibleStates := first;
    ghost var table := [first];
    assert listOfCols[..1] == [listOfCols[0]] && listOfCols[..0] == [];
    var i := 1;
    while i < |listOfCols|
      invariant 1 <= i <= |listOfCols|
      invariant table == PairTable(listOfCols[..i]) && possibleStates == Chains(table)
    {
      var column := listOfCols[i];
      var currentPairs := PossibleColumnPairs(column);
      var newStates := JoinStates(possibleStates, currentPairs);
      TableStep(listOfCols, i, table);
      table := table + [currentPairs];
      possibleStates := newStates;
      i := i + 1;
    }
    assert listOfCols[..i] == listOfCols;
    count := |possibleStates|;
  }
}
