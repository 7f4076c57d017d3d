/**
 * Expanding Nebula, dynamic-programming version: the listed column pairs
 * of every column are gathered into one table keyed by (encoded column,
 * left preimage column); then, column by column, the number of partial
 * preimages ending in each right preimage column is carried forward.
 */
module ExpandingNebula {
  import opened Common
  import opened Nebula
  import opened ExpandingNebulaBruteForce

  /** Python's `defaultdict(set)` lookup: a missing key reads as the empty set. */
  function Get(valid: map<(int, int), set<int>>, key: (int, int)): set<int>
  {
    if key in valid then valid[key] else {}
  }

  /**
   * The pairs of one column grouped by left column, as the loop of
   * `create_possible_column_pairs` builds its dictionary: key
   * `(code, left)`, the right columns in the order they are listed.
   */
  function Group(code: int, pairs: seq<seq<int>>): map<(int, int), seq<int>>
    requires forall k :: 0 <= k < |pairs| ==> |pairs[k]| == 2
  {
    if pairs == [] then map[]
    else
      var m := Group(code, pairs[..|pairs| - 1]);
      var pair := pairs[|pairs| - 1];
      var key := (code, pair[0]);
      m[key := (if key in m then m[key] else []) + [pair[1]]]
  }

  /** The grouped dictionary has only keys for `code`, and holds exactly the listed pairs. */
  lemma {:induction false} GroupMembers(code: int, pairs: seq<seq<int>>, key: (int, int), r: int)
    requires forall k :: 0 <= k < |pairs| ==> |pairs[k]| == 2
    ensures key in Group(code, pairs) ==> key.0 == code
    ensures (key in Group(code, pairs) && r in Group(code, pairs)[key]) <==> key.0 == code && [key.1, r] in pairs
    decreases |pairs|
  {
    if pairs != [] {
      var init, pair := pairs[..|pairs| - 1], pairs[|pairs| - 1];
      assert pairs == init + [pair];
      assert pair == [pair[0], pair[1]];
      GroupMembers(code, init, key, r);
    }
  }

  /** The dictionary-building loop of `create_possible_column_pairs`. */
  method GroupPairs(code: int, pairs: seq<seq<int>>) returns (possibleColumnsEncodedMap: map<(int, int), seq<int>>)
    requires forall k :: 0 <= k < |pairs| ==> |pairs[k]| == 2
    ensures possibleColumnsEncodedMap == Group(code, pairs)
  {
    possibleColumnsEncodedMap := map[];
    var k := 0;
    while k < |pairs|
      invariant 0 <= k <= |pairs|
      invariant possibleColumnsEncodedMap == Group(code, pairs[..k])
    {
      var pair := pairs[k];
      var key := (code, pair[0]);
      var value := pair[1];
      assert pairs[..k + 1][..k] == pairs[..k] && pairs[..k + 1][k] == pair;
      if key in possibleColumnsEncodedMap {
        possibleColumnsEncodedMap := possibleColumnsEncodedMap[key := possibleColumnsEncodedMap[key] + [value]];
      } else {
        assert [] + [value] == [value];
        possibleColumnsEncodedMap := possibleColumnsEncodedMap[key := [value]];
      }
      k := k + 1;
    }
    assert pairs[..k] == pairs;
  }

  /**
   * Python's `create_possible_column_pairs` in the dynamic-programming
   * version: list the pairs, then file each right column under its key.
   */
  method CreatePossibleColumnPairs(column: seq<bool>) returns (possibleColumnsEncodedMap: map<(int, int), seq<int>>)
    ensures possibleColumnsEncodedMap == Group(Encode(column), Pairs(column))
  {
    var listOfPossibleColumnPairs := PossibleColumnPairs(column);
    var code := ColumnToInt(column);
    possibleColumnsEncodedMap := GroupPairs(code, listOfPossibleColumnPairs);
  }

  /** Every pair of `pairs` has both columns below `num`. */
  ghost predicate PairsBelow(pairs: seq<seq<int>>, num: int)
  {
    AllPairs(pairs) && forall k :: 0 <= k < |pairs| ==> 0 <= pairs[k][0] < num && 0 <= pairs[k][1] < num
  }

  /** A table of pair lists, one a column, each duplicate-free and below `num`. */
  ghost predicate TableBelow(table: seq<seq<seq<int>>>, num: int)
  {
    forall j :: 0 <= j < |table| ==> PairsBelow(table[j], num) && Distinct(table[j])
  }

  /**
   * For each column `n` below `num`: the sum of `counts[p]` over the left
   * columns `p` that `[p, n]` pairs with. The count of partial preimages
   * ending in `n` after one more column.
   */
  ghost function Advance(pairs: seq<seq<int>>, counts: seq<int>): (next: seq<int>)
    ensures |next| == |counts|
  {
    seq(|counts|, n requires 0 <= n < |counts| =>
      Sum(seq(|counts|, p requires 0 <= p < |counts| => if [p, n] in pairs then counts[p] else 0)))
  }

  /** The counts after each column of `table`, starting from one for every column below `num`. */
  ghost function Counts(table: seq<seq<seq<int>>>, num: nat): (counts: seq<int>)
    ensures |counts| == num
  {
    if table == [] then seq(num, _ => 1)
    else Advance(table[|table| - 1], Counts(table[..|table| - 1], num))
  }

  /** How many states of `states` end in `n`. */
  ghost function CountEnd(states: seq<seq<int>>, n: int): (count: nat)
    requires NoneEmpty(states)
  {
    if states == [] then 0
    else
      var last := states[|states| - 1];
      CountEnd(states[..|states| - 1], n) + if last[|last| - 1] == n then 1 else 0
  }

  /** Every state of `states` ends in a column below `num`. */
  ghost predicate LastsBelow(states: seq<seq<int>>, num: int)
  {
    forall k :: 0 <= k < |states| ==> states[k] != [] && 0 <= states[k][|states[k]| - 1] < num
  }

  lemma {:induction false} CountEndConcat(a: seq<seq<int>>, b: seq<seq<int>>, n: int)
    requires NoneEmpty(a) && NoneEmpty(b)
    ensures NoneEmpty(a + b) && CountEnd(a + b, n) == CountEnd(a, n) + CountEnd(b, n)
    decreases |b|
  {
    if b == [] {
      assert a + b == a;
    } else {
      assert (a + b)[..|a + b| - 1] == a + b[..|b| - 1];
      CountEndConcat(a, b[..|b| - 1], n);
    }
  }

  /** Summed over all end columns below `num`, the counts give the number of states. */
  lemma {:induction false} CountEndTotal(states: seq<seq<int>>, num: nat)
    requires LastsBelow(states, num)
    ensures NoneEmpty(states)
    ensures |states| == Sum(seq(num, n requires 0 <= n < num => CountEnd(states, n)))
    decreases |states|
  {
    var total := seq(num, n requires 0 <= n < num => CountEnd(states, n));
    if states == [] {
      SumZero(total);
    } else {
      var init, last := states[..|states| - 1], states[|states| - 1];
      CountEndTotal(init, num);
      var before := seq(num, n requires 0 <= n < num => CountEnd(init, n));
      var hit := seq(num, n requires 0 <= n < num => if last[|last| - 1] == n then 1 else 0);
      SumPointwise(before, hit, total);
      SumSingle(hit, last[|last| - 1]);
    }
  }

  /** A state continues with pair `[x, n]` at most once, and does exactly when that pair is listed. */
  lemma {:induction false} JoinOneCount(state: seq<int>, pairs: seq<seq<int>>, n: int)
    requires state != [] && AllPairs(pairs) && Distinct(pairs)
    ensures CountEnd(JoinOne(state, pairs), n) == if [state[|state| - 1], n] in pairs then 1 else 0
    decreases |pairs|
  {
    if pairs != [] {
      var init, cp := pairs[..|pairs| - 1], pairs[|pairs| - 1];
      var x := state[|state| - 1];
      assert pairs == init + [cp];
      assert cp == [cp[0], cp[1]];
      JoinOneCount(state, init, n);
      var last := if x == cp[0] then [state + cp] else [];
      CountEndConcat(JoinOne(state, init), last, n);
      if [x, n] == cp {
        assert [x, n] !in init;
      }
    }
  }

  /** The pairs themselves, counted by right column: one for each left column they pair with. */
  lemma {:induction false} PairsCountEnd(pairs: seq<seq<int>>, num: nat, n: int)
    requires PairsBelow(pairs, num) && Distinct(pairs)
    ensures NoneEmpty(pairs)
    ensures CountEnd(pairs, n) == Sum(seq(num, p requires 0 <= p < num => if [p, n] in pairs then 1 else 0))
    decreases |pairs|
  {
    var total := seq(num, p requires 0 <= p < num => if [p, n] in pairs then 1 else 0);
    if pairs == [] {
      SumZero(total);
    } else {
      var init, cp := pairs[..|pairs| - 1], pairs[|pairs| - 1];
      assert pairs == init + [cp];
      assert cp == [cp[0], cp[1]];
      PairsCountEnd(init, num, n);
      var before := seq(num, p requires 0 <= p < num => if [p, n] in init then 1 else 0);
      var hit := seq(num, p requires 0 <= p < num => if [p, n] == cp then 1 else 0);
      forall p | 0 <= p < num ensures total[p] == before[p] + hit[p] {
        if [p, n] == cp {
          assert [p, n] !in init;
        }
      }
      SumPointwise(before, hit, total);
      SumSingle(hit, cp[0]);
    }
  }

  /**
   * Joining states with a column's pairs: the joined states ending in `n`
   * are, for each left column `p` that pairs with `n`, the states ending in `p`.
   */
  lemma {:induction false} JoinCount(states: seq<seq<int>>, pairs: seq<seq<int>>, num: nat, n: int)
    requires LastsBelow(states, num) && AllPairs(pairs) && Distinct(pairs)
    ensures NoneEmpty(states)
    ensures CountEnd(Join(states, pairs), n)
      == Sum(seq(num, p requires 0 <= p < num => if [p, n] in pairs then CountEnd(states, p) else 0))
    decreases |states|
  {
    var total := seq(num, p requires 0 <= p < num => if [p, n] in pairs then CountEnd(states, p) else 0);
    if states == [] {
      SumZero(total);
    } else {
      var init, last := states[..|states| - 1], states[|states| - 1];
      var x := last[|last| - 1];
      JoinCount(init, pairs, num, n);
      CountEndConcat(Join(init, pairs), JoinOne(last, pairs), n);
      JoinOneCount(last, pairs, n);
      var before := seq(num, p requires 0 <= p < num => if [p, n] in pairs then CountEnd(init, p) else 0);
      var hit := seq(num, p requires 0 <= p < num => if p == x && [p, n] in pairs then 1 else 0);
      SumPointwise(before, hit, total);
      SumSingle(hit, x);
    }
  }

  /** Every chain ends in the right column of one of its last column's pairs. */
  lemma ChainsLastsBelow(table: seq<seq<seq<int>>>, num: nat)
    requires table != [] && AllTables(table) && TableBelow(table, num)
    ensures LastsBelow(Chains(table), num)
  {
    var chains := Chains(table);
    forall k | 0 <= k < |chains| ensures 0 <= chains[k][|chains[k]| - 1] < num {
      var s := chains[k];
      ChainsSound(table, s);
      var j := |table| - 1;
      assert [Left(s, j), Right(s, j)] in table[j];
      var i :| 0 <= i < |table[j]| && table[j][i] == [Left(s, j), Right(s, j)];
    }
  }

  lemma CountsOfOne(table: seq<seq<seq<int>>>, num: nat, n: int)
    requires |table| == 1 && AllTables(table) && TableBelow(table, num) && 0 <= n < num
    ensures NoneEmpty(Chains(table)) && Counts(table, num)[n] == CountEnd(Chains(table), n)
  {
    var pairs, ones := table[0], seq(num, _ => 1);
    assert table[..0] == [];
    assert Counts(table, num) == Advance(pairs, ones);
    PairsCountEnd(pairs, num, n);
    var a := seq(num, p requires 0 <= p < num => if [p, n] in pairs then ones[p] else 0);
    var b := seq(num, p requires 0 <= p < num => if [p, n] in pairs then 1 else 0);
    assert a == b;
  }

  /** One more column: the counts advance exactly as the chains are joined. */
  lemma CountsStep(init: seq<seq<seq<int>>>, pairs: seq<seq<int>>, num: nat, n: int)
    requires init != [] && AllTables(init) && TableBelow(init, num) && 0 <= n < num
    requires AllPairs(pairs) && Distinct(pairs)
    requires forall p :: 0 <= p < num ==> Counts(init, num)[p] == CountEnd(Chains(init), p)
    ensures NoneEmpty(Join(Chains(init), pairs))
    ensures Advance(pairs, Counts(init, num))[n] == CountEnd(Join(Chains(init), pairs), n)
  {
    var before := Counts(init, num);
    ChainsLastsBelow(init, num);
    JoinCount(Chains(init), pairs, num, n);
    var a := seq(num, p requires 0 <= p < num => if [p, n] in pairs then before[p] else 0);
    var b := seq(num, p requires 0 <= p < num => if [p, n] in pairs then CountEnd(Chains(init), p) else 0);
    assert a == b;
  }

  /** After every column, the count for `n` is the number of chains ending in `n`. */
  lemma {:induction false} CountsCountChains(table: seq<seq<seq<int>>>, num: nat, n: int)
    requires table != [] && AllTables(table) && TableBelow(table, num) && 0 <= n < num
    ensures NoneEmpty(Chains(table)) && Counts(table, num)[n] == CountEnd(Chains(table), n)
    decreases |table|
  {
    if |table| == 1 {
      CountsOfOne(table, num, n);
    } else {
      var init, pairs := table[..|table| - 1], table[|table| - 1];
      forall p | 0 <= p < num ensures Counts(init, num)[p] == CountEnd(Chains(init), p) {
        CountsCountChains(init, num, p);
      }
      CountsStep(init, pairs, num, n);
    }
  }

  /** The dynamic programme's total equals the number of chains the brute force builds. */
  lemma CountsAgree(table: seq<seq<seq<int>>>, num: nat)
    requires table != [] && AllTables(table) && TableBelow(table, num)
    ensures Sum(Counts(table, num)) == |Chains(table)|
  {
    var counts, chains := Counts(table, num), Chains(table);
    forall n | 0 <= n < num ensures counts[n] == CountEnd(chains, n) {
      CountsCountChains(table, num, n);
    }
    ChainsLastsBelow(table, num);
    CountEndTotal(chains, num);
    assert counts == seq(num, n requires 0 <= n < num => CountEnd(chains, n));
  }

  /** The encoded columns, in order. */
  function Codes(cols: seq<seq<bool>>): (codes: seq<int>)
    ensures |codes| == |cols|
  {
    if cols == [] then [] else Codes(cols[..|cols| - 1]) + [Encode(cols[|cols| - 1])]
  }

  lemma {:induction false} CodesEntry(cols: seq<seq<bool>>, j: int)
    requires 0 <= j < |cols|
    ensures Codes(cols)[j] == Encode(cols[j])
    decreases |cols|
  {
    if j < |cols| - 1 {
      CodesEntry(cols[..|cols| - 1], j);
    }
  }

  lemma {:induction false} PairTableEntry(cols: seq<seq<bool>>, j: int)
    requires 0 <= j < |cols|
    ensures PairTable(cols)[j] == Pairs(cols[j])
    decreases |cols|
  {
    if j < |cols| - 1 {
      PairTableEntry(cols[..|cols| - 1], j);
    }
  }

  /** Python's `list(map(column_to_int, list_of_columns))`. */
  method EncodeColumns(listOfColumns: seq<seq<bool>>) returns (encodedColumns: seq<int>)
    ensures encodedColumns == Codes(listOfColumns)
  {
    encodedColumns := [];
    var j := 0;
    while j < |listOfColumns|
      invariant 0 <= j <= |listOfColumns|
      invariant encodedColumns == Codes(listOfColumns[..j])
    {
      var code := ColumnToInt(listOfColumns[j]);
      assert listOfColumns[..j + 1][..j] == listOfColumns[..j];
      encodedColumns := encodedColumns + [code];
      j := j + 1;
    }
    assert listOfColumns[..j] == listOfColumns;
  }

  /** The elements of a list, as Python's `set.update` adds them. */
  function Elements(values: seq<int>): (elements: set<int>)
    ensures forall x :: x in elements <==> x in values
  {
    set x | x in values
  }

  /** `r` is filed under `(code, p)` exactly when some column with that code lists the pair `[p, r]`. */
  ghost predicate Files(valid: map<(int, int), set<int>>, codes: seq<int>, table: seq<seq<seq<int>>>)
    requires |codes| == |table|
  {
    forall code, p, r :: r in Get(valid, (code, p)) <==> Listed(codes, table, code, p, r)
  }

  ghost predicate Listed(codes: seq<int>, table: seq<seq<seq<int>>>, code: int, p: int, r: int)
    requires |codes| == |table|
  {
    exists i :: 0 <= i < |codes| && codes[i] == code && [p, r] in table[i]
  }

  /** Python's `for k, v in pairs_map.items(): valid_possible_cols[k].update(v)`, in any order of the items. */
  method MergeItems(validPossibleCols: map<(int, int), set<int>>, pairsMap: map<(int, int), seq<int>>)
    returns (merged: map<(int, int), set<int>>)
    ensures forall key, r :: r in Get(merged, key) <==> r in Get(validPossibleCols, key) || (key in pairsMap && r in pairsMap[key])
  {
    merged := validPossibleCols;
    var remaining := pairsMap.Keys;
    while remaining != {}
      invariant remaining <= pairsMap.Keys
      invariant forall key, r :: r in Get(merged, key) <==>
        r in Get(validPossibleCols, key) || (key in pairsMap && key !in remaining && r in pairsMap[key])
      decreases remaining
    {
      var k :| k in remaining;
      var v := pairsMap[k];
      merged := merged[k := Get(merged, k) + Elements(v)];
      remaining := remaining - {k};
    }
  }

  /** Merging one more column's grouped pairs files that column's pairs as well. */
  lemma FilesStep(valid: map<(int, int), set<int>>, merged: map<(int, int), set<int>>,
                  codes: seq<int>, table: seq<seq<seq<int>>>, code: int, pairs: seq<seq<int>>)
    requires |codes| == |table| && Files(valid, codes, table) && AllPairs(pairs)
    requires forall key, r :: r in Get(merged, key) <==> r in Get(valid, key) || (key in Group(code, pairs) && r in Group(code, pairs)[key])
    ensures Files(merged, codes + [code], table + [pairs])
  {
    var codes', table' := codes + [code], table + [pairs];
    forall code0, p, r ensures r in Get(merged, (code0, p)) <==> Listed(codes', table', code0, p, r) {
      GroupMembers(code, pairs, (code0, p), r);
      if Listed(codes, table, code0, p, r) {
        var i :| 0 <= i < |codes| && codes[i] == code0 && [p, r] in table[i];
        assert codes'[i] == code0 && table'[i] == table[i];
      }
      if Listed(codes', table', code0, p, r) {
        var i :| 0 <= i < |codes'| && codes'[i] == code0 && [p, r] in table'[i];
        if i < |codes| {
          assert codes[i] == code0 && [p, r] in table[i];
        }
      }
      if code0 == code && [p, r] in pairs {
        assert codes'[|codes|] == code0 && table'[|codes|] == pairs;
      }
    }
  }

  /** Python's loop filling `valid_possible_cols` from every column's pairs map. */
  method BuildValidPossibleCols(listOfColumns: seq<seq<bool>>) returns (validPossibleCols: map<(int, int), set<int>>)
    ensures Files(validPossibleCols, Codes(listOfColumns), PairTable(listOfColumns))
  {
    validPossibleCols := map[];
    ghost var codes: seq<int> := [];
    ghost var table: seq<seq<seq<int>>> := [];
    var j := 0;
    while j < |listOfColumns|
      invariant 0 <= j <= |listOfColumns|
      invariant codes == Codes(listOfColumns[..j]) && table == PairTable(listOfColumns[..j])
      invariant Files(validPossibleCols, codes, table)
    {
      var column := listOfColumns[j];
      var pairsMap := CreatePossibleColumnPairs(column);
      var merged := MergeItems(validPossibleCols, pairsMap);
      FilesStep(validPossibleCols, merged, codes, table, Encode(column), Pairs(column));
      assert listOfColumns[..j + 1][..j] == listOfColumns[..j];
      codes, table := codes + [Encode(column)], table + [Pairs(column)];
      validPossibleCols := merged;
      j := j + 1;
    }
    assert listOfColumns[..j] == listOfColumns;
  }

  /** Columns of one height `h`, at least one cell high. */
  ghost predicate Uniform(cols: seq<seq<bool>>, h: int)
  {
    h >= 1 && forall k :: 0 <= k < |cols| ==> |cols[k]| == h
  }

  /** One column's pairs all lie below 2^(h+1), with no pair listed twice. */
  lemma PairsBelowColumn(column: seq<bool>)
    requires column != []
    ensures PairsBelow(Pairs(column), Pow2(|column| + 1)) && Distinct(Pairs(column))
  {
    var pairs := Pairs(column);
    forall k | 0 <= k < |pairs| ensures 0 <= pairs[k][0] < Pow2(|column| + 1) && 0 <= pairs[k][1] < Pow2(|column| + 1) {
      assert pairs[k] == [pairs[k][0], pairs[k][1]];
      PairsExact(column, pairs[k][0], pairs[k][1]);
    }
    PairsDistinct(column);
  }

  /** Every column's pairs lie below 2^(h+1) when all columns are h high. */
  lemma TableBelowColumns(cols: seq<seq<bool>>, h: int)
    requires Uniform(cols, h)
    ensures TableBelow(PairTable(cols), Pow2(h + 1))
  {
    forall j | 0 <= j < |cols| ensures PairsBelow(PairTable(cols)[j], Pow2(h + 1)) && Distinct(PairTable(cols)[j]) {
      PairTableEntry(cols, j);
      PairsBelowColumn(cols[j]);
    }
  }

  /**
   * Looking up (code of column j, p) in the filed table gives exactly the
   * right columns paired with p for column j: columns of one height share a
   * code only when they are equal.
   */
  lemma Lookup(valid: map<(int, int), set<int>>, cols: seq<seq<bool>>, h: int, j: int, p: int, r: int)
    requires Uniform(cols, h) && 0 <= j < |cols|
    requires Files(valid, Codes(cols), PairTable(cols))
    ensures r in Get(valid, (Encode(cols[j]), p)) <==> [p, r] in Pairs(cols[j])
  {
    var codes, table := Codes(cols), PairTable(cols);
    CodesEntry(cols, j);
    PairTableEntry(cols, j);
    if r in Get(valid, (Encode(cols[j]), p)) {
      var i :| 0 <= i < |codes| && codes[i] == Encode(cols[j]) && [p, r] in table[i];
      CodesEntry(cols, i);
      PairTableEntry(cols, i);
      EncodeInjective(cols[i], cols[j]);
    }
    if [p, r] in Pairs(cols[j]) {
      assert codes[j] == Encode(cols[j]) && [p, r] in table[j];
    }
  }

  /** The first `p` terms of the sum giving `Advance(pairs, counts)[n]`. */
  ghost function Incoming(pairs: seq<seq<int>>, counts: seq<int>, n: int, p: nat): seq<int>
    requires p <= |counts|
  {
    seq(p, q requires 0 <= q < p => if [q, n] in pairs then counts[q] else 0)
  }

  lemma IncomingStep(pairs: seq<seq<int>>, counts: seq<int>, n: int, p: nat)
    requires p < |counts|
    ensures Sum(Incoming(pairs, counts, n, p + 1)) == Sum(Incoming(pairs, counts, n, p)) + if [p, n] in pairs then counts[p] else 0
  {
    assert Incoming(pairs, counts, n, p + 1)[..p] == Incoming(pairs, counts, n, p);
  }

  /**
   * One round of the counting loop: every count moves to each right column
   * the table pairs with its left column, `next_columns[r] += counts[p]`.
   * `pairs` is the column's pair list that the table lookups agree with.
   */
  method StepCounts(validPossibleCols: map<(int, int), set<int>>, column: int, counts: seq<int>,
                    ghost pairs: seq<seq<int>>) returns (nextColumns: seq<int>)
    requires PairsBelow(pairs, |counts|)
    requires forall p, r :: r in Get(validPossibleCols, (column, p)) <==> [p, r] in pairs
    ensures nextColumns == Advance(pairs, counts)
  {
    var num := |counts|;
    nextColumns := seq(num, _ => 0);
    var p := 0;
    while p < num
      invariant 0 <= p <= num && |nextColumns| == num
      invariant forall n :: 0 <= n < num ==> nextColumns[n] == Sum(Incoming(pairs, counts, n, p))
    {
      var targets := Get(validPossibleCols, (column, p));
      forall r | r in targets ensures 0 <= r < num {
        assert [p, r] in pairs;
        var k :| 0 <= k < |pairs| && pairs[k] == [p, r];
        assert pairs[k][1] == r;
      }
      nextColumns := AddToEach(nextColumns, targets, counts[p]);
      forall n | 0 <= n < num ensures nextColumns[n] == Sum(Incoming(pairs, counts, n, p + 1)) {
        IncomingStep(pairs, counts, n, p);
      }
      p := p + 1;
    }
    forall n | 0 <= n < num ensures nextColumns[n] == Advance(pairs, counts)[n] {
      assert Incoming(pairs, counts, n, num)
        == seq(num, q requires 0 <= q < num => if [q, n] in pairs then counts[q] else 0);
    }
  }

  /** The inner loop over a set of right columns: each of them gains `amount`, in any order. */
  method AddToEach(values: seq<int>, targets: set<int>, amount: int) returns (values': seq<int>)
    requires forall r :: r in targets ==> 0 <= r < |values|
    ensures |values'| == |values|
    ensures forall n :: 0 <= n < |values| ==> values'[n] == values[n] + if n in targets then amount else 0
  {
    values' := values;
    var todo: set<nat> := targets;
    while todo != {}
      invariant todo <= targets && |values'| == |values|
      invariant forall n :: 0 <= n < |values| ==> values'[n] == values[n] + if n in targets - todo then amount else 0
      decreases todo
    {
      var r :| r in todo;
      values' := values'[r := values'[r] + amount];
      todo := todo - {r};
    }
  }

  /** Every lookup for column `j` agrees with that column's pair list. */
  lemma LookupColumn(valid: map<(int, int), set<int>>, cols: seq<seq<bool>>, h: int, j: int)
    requires Uniform(cols, h) && 0 <= j < |cols|
    requires Files(valid, Codes(cols), PairTable(cols))
    ensures forall p, r :: r in Get(valid, (Encode(cols[j]), p)) <==> [p, r] in Pairs(cols[j])
  {
    forall p, r ensures r in Get(valid, (Encode(cols[j]), p)) <==> [p, r] in Pairs(cols[j]) {
      Lookup(valid, cols, h, j, p, r);
    }
  }

  /** One more column extends the pair table by its pairs and advances the counts over them. */
  lemma CountsSnoc(cols: seq<seq<bool>>, j: int, table: seq<seq<seq<int>>>, num: nat)
    requires 0 <= j < |cols| && table == PairTable(cols[..j])
    ensures PairTable(cols[..j + 1]) == table + [Pairs(cols[j])]
    ensures Counts(table + [Pairs(cols[j])], num) == Advance(Pairs(cols[j]), Counts(table, num))
  {
    assert cols[..j + 1][..j] == cols[..j];
    assert (table + [Pairs(cols[j])])[..|table|] == table;
  }

  /** The counting loop of `solution`, over the encoded columns. */
  method CountPreimages(listOfColumns: seq<seq<bool>>, numRows: int, encodedColumns: seq<int>,
                        validPossibleCols: map<(int, int), set<int>>) returns (counts: seq<int>)
    requires Uniform(listOfColumns, numRows) && encodedColumns == Codes(listOfColumns)
    requires Files(validPossibleCols, Codes(listOfColumns), PairTable(listOfColumns))
    ensures counts == Counts(PairTable(listOfColumns), Pow2(numRows + 1))
  {
    var numPossibilities := Pow2(numRows + 1);
    counts := seq(numPossibilities, _ => 1);
    ghost var table: seq<seq<seq<int>>> := [];
    var j := 0;
    while j < |encodedColumns|
      invariant 0 <= j <= |listOfColumns|
      invariant table == PairTable(listOfColumns[..j]) && counts == Counts(table, numPossibilities)
    {
      var column := encodedColumns[j];
      ghost var pairs := Pairs(listOfColumns[j]);
      CodesEntry(listOfColumns, j);
      PairsBelowColumn(listOfColumns[j]);
      LookupColumn(validPossibleCols, listOfColumns, numRows, j);
      counts := StepCounts(validPossibleCols, column, counts, pairs);
      CountsSnoc(listOfColumns, j, table, numPossibilities);
      table := table + [pairs];
      j := j + 1;
    }
    assert listOfColumns[..j] == listOfColumns;
  }

  /**
   * The number of preimages of `g` (a list of rows): the counting loop over
   * the encoded columns, starting from one way to end in each column state.
   * With at least one column this is the number of chains the brute-force
   * version enumerates.
   */
  method Solution(g: seq<seq<bool>>) returns (count: int)
    requires forall i :: 0 <= i < |g| ==> |g[i]| == |g[0]|
    ensures count == Sum(Counts(PairTable(Transpose(g)), Pow2(|g| + 1)))
    ensures Transpose(g) != [] ==> count == |Chains(PairTable(Transpose(g)))| && Distinct(Chains(PairTable(Transpose(g))))
  {
    var listOfColumns := Transpose(g);
    var encodedColumns := EncodeColumns(listOfColumns);
    var validPossibleCols := BuildValidPossibleCols(listOfColumns);
    var counts;
    if listOfColumns == [] {
      counts := seq(Pow2(|g| + 1), _ => 1);
    } else {
      counts := CountPreimages(listOfColumns, |g|, encodedColumns, validPossibleCols);
      TableBelowColumns(listOfColumns, |g|);
      CountsAgree(PairTable(listOfColumns), Pow2(|g| + 1));
      PairTableDistinct(listOfColumns);
      ChainsDistinct(PairTable(listOfColumns));
    }
    count := Sum(counts);
  }
}
