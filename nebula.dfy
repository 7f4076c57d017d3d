/**
 * The part of Expanding Nebula shared by the dynamic-programming and the
 * brute-force solutions. A cell of the next state has gas exactly when
 * exactly one of the four cells of the 2 × 2 block above-left of it had
 * gas. A column of n cells therefore has, as its preimages, stacks of n + 1
 * rows of two cells, each pair of consecutive rows forming a block that
 * evolves into the matching cell; each stack is encoded as its left and
 * right columns, read as binary numbers with row i at bit i.
 */
module Nebula {
  import opened Common

  /** Rows of cells; `true` is gas (the tables' 1), `false` is empty (0). */
  type Rows = seq<seq<bool>>

  function Block(a: int, b: int, c: int, d: int): Rows
  {
    [[a == 1, b == 1], [c == 1, d == 1]]
  }

  ghost predicate IsBlock(b: Rows)
  {
    |b| == 2 && |b[0]| == 2 && |b[1]| == 2
  }

  function Cell(x: bool): int
  {
    if x then 1 else 0
  }

  /** The evolution rule: gas in exactly one of the four cells. */
  ghost predicate Evolves(b: Rows)
    requires IsBlock(b)
  {
    Cell(b[0][0]) + Cell(b[0][1]) + Cell(b[1][0]) + Cell(b[1][1]) == 1
  }

  /** The 2 × 2 blocks that evolve into a gas cell (`true`) or an empty one (`false`). */
  function Preimages(gas: bool): (blocks: seq<Rows>)
    ensures AllBlocks(blocks) && forall k :: 0 <= k < |blocks| ==> Evolves(blocks[k]) == gas
  {
    if gas then
      [Block(1, 0, 0, 0), Block(0, 1, 0, 0), Block(0, 0, 1, 0), Block(0, 0, 0, 1)]
    else
      [Block(0, 0, 0, 0), Block(1, 1, 0, 0), Block(1, 0, 1, 0), Block(1, 0, 0, 1),
       Block(0, 1, 1, 0), Block(0, 1, 0, 1), Block(0, 0, 1, 1), Block(0, 1, 1, 1),
       Block(1, 0, 1, 1), Block(1, 1, 0, 1), Block(1, 1, 1, 0), Block(1, 1, 1, 1)]
  }

  /** Four blocks evolve into gas and twelve into an empty cell, none listed twice. */
  lemma PreimagesCounted()
    ensures |Preimages(true)| == 4 && |Preimages(false)| == 12
    ensures Distinct(Preimages(true)) && Distinct(Preimages(false))
  {
  }

  /** Every 2 × 2 block is listed under the state it evolves into. */
  lemma PreimagesComplete(b: Rows)
    requires IsBlock(b)
    ensures b in Preimages(Evolves(b))
  {
    var x, y, z, w := b[0][0], b[0][1], b[1][0], b[1][1];
    assert b[0] == [x, y] && b[1] == [z, w];
    assert b == [[x, y], [z, w]];
    if x {
      if y {
        assert !Evolves(b);
      } else if z || w {
        assert !Evolves(b);
      } else {
        assert Evolves(b) && b == Preimages(true)[0];
      }
    } else if y {
      if z || w {
        assert !Evolves(b);
      } else {
        assert Evolves(b) && b == Preimages(true)[1];
      }
    } else if z {
      if w {
        assert !Evolves(b) && b == Preimages(false)[6];
      } else {
        assert Evolves(b) && b == Preimages(true)[2];
      }
    } else if w {
      assert Evolves(b) && b == Preimages(true)[3];
    } else {
      assert !Evolves(b) && b == Preimages(false)[0];
    }
  }

  /** Python's `zip(*m)` on a rectangular list of rows: the list of its columns. */
  function Transpose(m: Rows): (t: Rows)
    requires forall i :: 0 <= i < |m| ==> |m[i]| == |m[0]|
    ensures m == [] ==> t == []
    ensures m != [] ==> |t| == |m[0]| && forall j :: 0 <= j < |t| ==> |t[j]| == |m| && forall i :: 0 <= i < |m| ==> t[j][i] == m[i][j]
  {
    if m == [] then [] else seq(|m[0]|, j requires 0 <= j < |m[0]| => seq(|m|, i requires 0 <= i < |m| => m[i][j]))
  }

  function Pow2(n: nat): (p: int)
    ensures p >= 1
  {
    if n == 0 then 1 else 2 * Pow2(n - 1)
  }

  /** A column as a binary number, its first cell the lowest bit. */
  function Encode(col: seq<bool>): (v: int)
    ensures 0 <= v < Pow2(|col|)
  {
    if col == [] then 0 else Cell(col[0]) + 2 * Encode(col[1..])
  }

  /** The `n` lowest bits of `v`, lowest first. */
  function Decode(v: nat, n: nat): (col: seq<bool>)
    ensures |col| == n
  {
    if n == 0 then [] else [v % 2 == 1] + Decode(v / 2, n - 1)
  }

  /** Bit i of the encoding is cell i: decoding gives the column back. */
  lemma {:induction false} DecodeEncode(col: seq<bool>)
    ensures Decode(Encode(col), |col|) == col
    decreases |col|
  {
    if col != [] {
      DecodeEncode(col[1..]);
      assert col == [col[0]] + col[1..];
    }
  }

  /** Columns of one length have distinct encodings. */
  lemma EncodeInjective(a: seq<bool>, b: seq<bool>)
    requires |a| == |b| && Encode(a) == Encode(b)
    ensures a == b
  {
    DecodeEncode(a);
    DecodeEncode(b);
  }

  /** Appending a cell sets the next bit up. */
  lemma {:induction false} EncodeSnoc(s: seq<bool>, x: bool)
    ensures Encode(s + [x]) == Encode(s) + (if x then Pow2(|s|) else 0)
    decreases |s|
  {
    if s != [] {
      assert (s + [x])[1..] == s[1..] + [x];
      EncodeSnoc(s[1..], x);
    }
  }

  /**
   * Python's `column_to_int`: OR each cell's bit into the result. Bit i is
   * still clear when cell i is read (the result is below 2^i), so the OR
   * is the sum written here.
   */
  method ColumnToInt(col: seq<bool>) returns (result: int)
    ensures result == Encode(col)
  {
    result := 0;
    var i := 0;
    while i < |col|
      invariant 0 <= i <= |col|
      invariant result == Encode(col[..i]) && result < Pow2(i)
    {
      var gas := col[i];
      assert col[..i + 1] == col[..i] + [gas];
      EncodeSnoc(col[..i], gas);
      result := result + (if gas then Pow2(i) else 0);
      i := i + 1;
    }
    assert col[..i] == col;
  }

  ghost predicate AllBlocks(blocks: seq<Rows>)
  {
    forall k :: 0 <= k < |blocks| ==> IsBlock(blocks[k])
  }

  /** `s` extended by the bottom row of every block whose top row is the last row of `s`. */
  function ExtendOne(s: Rows, blocks: seq<Rows>): (grown: seq<Rows>)
    requires s != [] && AllBlocks(blocks)
    ensures NoneEmpty(grown)
  {
    if blocks == [] then []
    else
      var b := blocks[|blocks| - 1];
      var last := if s[|s| - 1] == b[0] then [s + [b[1]]] else [];
      ExtendOne(s, blocks[..|blocks| - 1]) + last
  }

  /** Every stack of `prev` extended in turn, in the order of `prev`. */
  function Extend(prev: seq<Rows>, blocks: seq<Rows>): (grown: seq<Rows>)
    requires NoneEmpty(prev) && AllBlocks(blocks)
    ensures NoneEmpty(grown)
  {
    if prev == [] then []
    else Extend(prev[..|prev| - 1], blocks) + ExtendOne(prev[|prev| - 1], blocks)
  }

  /** The preimage stacks of the first `i` cells of `column`, in the order the loops build them. */
  function StacksUpTo(column: seq<bool>, i: nat): (stacks: seq<Rows>)
    requires 1 <= i <= |column|
    ensures NoneEmpty(stacks)
    decreases i
  {
    if i == 1 then Preimages(column[0])
    else Extend(StacksUpTo(column, i - 1), Preimages(column[i - 1]))
  }

  function Stacks(column: seq<bool>): seq<Rows>
  {
    if column == [] then [] else StacksUpTo(column, |column|)
  }

  /** The cell that rows `k` and `k + 1` of `t` evolve into. */
  ghost function Link(t: Rows, k: int): bool
    requires 0 <= k < |t| - 1 && |t[k]| == 2 && |t[k + 1]| == 2
  {
    Evolves([t[k], t[k + 1]])
  }

  /** `t` has one more row than `column` has cells, two cells a row, and each pair of consecutive rows evolves into its cell. */
  ghost predicate Fits(t: Rows, column: seq<bool>)
  {
    |t| == |column| + 1
    && (forall r :: 0 <= r < |t| ==> |t[r]| == 2)
    && forall k :: 0 <= k < |column| ==> Link(t, k) == column[k]
  }

  ghost predicate AllFit(stacks: seq<Rows>, c: seq<bool>)
  {
    forall s :: s in stacks ==> Fits(s, c)
  }

  /** Adding a row below a fitting stack fits one more cell. */
  lemma FitsSnoc(s: Rows, c: seq<bool>, b: Rows)
    requires Fits(s, c) && IsBlock(b) && s[|s| - 1] == b[0]
    ensures Fits(s + [b[1]], c + [Evolves(b)])
  {
    var t := s + [b[1]];
    assert b == [t[|c|], t[|c| + 1]];
    forall k | 0 <= k < |c| ensures Link(t, k) == (c + [Evolves(b)])[k] {
      assert Link(s, k) == c[k];
      assert t[k] == s[k] && t[k + 1] == s[k + 1];
    }
  }

  /** A fitting stack without its bottom row fits all cells but the last; its last two rows are a block of that cell. */
  lemma FitsInit(t: Rows, c: seq<bool>)
    requires Fits(t, c) && c != []
    ensures Fits(t[..|c|], c[..|c| - 1])
    ensures IsBlock([t[|c| - 1], t[|c|]]) && Evolves([t[|c| - 1], t[|c|]]) == c[|c| - 1]
    ensures t == t[..|c|] + [[t[|c| - 1], t[|c|]][1]]
  {
  }

  lemma {:induction false} ExtendOneMembers(s: Rows, blocks: seq<Rows>, t: Rows)
    requires s != [] && AllBlocks(blocks)
    ensures t in ExtendOne(s, blocks) <==> exists b :: b in blocks && s[|s| - 1] == b[0] && t == s + [b[1]]
    decreases |blocks|
  {
    if blocks != [] {
      var init, b := blocks[..|blocks| - 1], blocks[|blocks| - 1];
      assert blocks == init + [b];
      ExtendOneMembers(s, init, t);
    }
  }

  lemma {:induction false} ExtendMembers(prev: seq<Rows>, blocks: seq<Rows>, t: Rows)
    requires NoneEmpty(prev) && AllBlocks(blocks)
    ensures t in Extend(prev, blocks) <==>
      exists s, b :: s in prev && b in blocks && s[|s| - 1] == b[0] && t == s + [b[1]]
    decreases |prev|
  {
    if prev != [] {
      var init, last := prev[..|prev| - 1], prev[|prev| - 1];
      assert prev == init + [last];
      ExtendMembers(init, blocks, t);
      ExtendOneMembers(last, blocks, t);
    }
  }

  /** A preimage block of the first cell fits the column's first cell. */
  lemma BlockFits(column: seq<bool>, t: Rows)
    requires column != [] && t in Preimages(column[0])
    ensures Fits(t, column[..1])
  {
    var blocks := Preimages(column[0]);
    var k :| 0 <= k < |blocks| && blocks[k] == t;
    assert t == [t[0], t[1]];
    assert column[..1] == [column[0]];
  }

  /** Extending stacks that fit `c` by blocks of `gas` gives stacks that fit `c + [gas]`. */
  lemma ExtendSound(prev: seq<Rows>, blocks: seq<Rows>, c: seq<bool>, gas: bool, t: Rows)
    requires NoneEmpty(prev) && AllBlocks(blocks) && forall k :: 0 <= k < |blocks| ==> Evolves(blocks[k]) == gas
    requires AllFit(prev, c)
    requires t in Extend(prev, blocks)
    ensures Fits(t, c + [gas])
  {
    ExtendMembers(prev, blocks, t);
    var s, b :| s in prev && b in blocks && s[|s| - 1] == b[0] && t == s + [b[1]];
    var k :| 0 <= k < |blocks| && blocks[k] == b;
    FitsSnoc(s, c, b);
  }

  lemma PrefixSnoc<T>(s: seq<T>, i: nat)
    requires 1 <= i <= |s|
    ensures s[..i] == s[..i - 1] + [s[i - 1]]
  {
  }

  lemma StacksSoundStep(column: seq<bool>, i: nat, t: Rows, prev: seq<Rows>)
    requires 2 <= i <= |column| && t in StacksUpTo(column, i) && prev == StacksUpTo(column, i - 1)
    requires AllFit(prev, column[..i - 1])
    ensures Fits(t, column[..i])
  {
    ExtendSound(prev, Preimages(column[i - 1]), column[..i - 1], column[i - 1], t);
    PrefixSnoc(column, i);
  }

  /** Every stack built for the first `i` cells fits them. */
  lemma {:induction false} StacksSound(column: seq<bool>, i: nat)
    requires 1 <= i <= |column|
    ensures AllFit(StacksUpTo(column, i), column[..i])
    decreases i
  {
    if i == 1 {
      forall t | t in Preimages(column[0]) ensures Fits(t, column[..1]) {
        BlockFits(column, t);
      }
    } else {
      StacksSound(column, i - 1);
      forall t | t in StacksUpTo(column, i) ensures Fits(t, column[..i]) {
        StacksSoundStep(column, i, t, StacksUpTo(column, i - 1));
      }
    }
  }

  /** Every stack that fits the first `i` cells is built. */
  lemma {:induction false} StacksComplete(column: seq<bool>, i: nat, t: Rows)
    requires 1 <= i <= |column| && Fits(t, column[..i])
    ensures t in StacksUpTo(column, i)
    decreases i
  {
    FitsInit(t, column[..i]);
    var b := [t[i - 1], t[i]];
    PreimagesComplete(b);
    assert column[..i][i - 1] == column[i - 1];
    if i == 1 {
      assert t == b;
    } else {
      var s := t[..i];
      assert column[..i][..i - 1] == column[..i - 1];
      StacksComplete(column, i - 1, s);
      ExtendComplete(StacksUpTo(column, i - 1), Preimages(column[i - 1]), s, b);
    }
  }

  /** A stack of `prev` whose bottom row is a block's top row is extended by that block. */
  lemma ExtendComplete(prev: seq<Rows>, blocks: seq<Rows>, s: Rows, b: Rows)
    requires NoneEmpty(prev) && AllBlocks(blocks) && s in prev && b in blocks && s != [] && s[|s| - 1] == b[0]
    ensures s + [b[1]] in Extend(prev, blocks)
  {
    ExtendMembers(prev, blocks, s + [b[1]]);
  }

  lemma {:induction false} ExtendOneDistinct(s: Rows, blocks: seq<Rows>)
    requires s != [] && Distinct(blocks) && AllBlocks(blocks)
    ensures Distinct(ExtendOne(s, blocks))
    decreases |blocks|
  {
    if blocks != [] {
      var init, b := blocks[..|blocks| - 1], blocks[|blocks| - 1];
      ExtendOneDistinct(s, init);
      var last := if s[|s| - 1] == b[0] then [s + [b[1]]] else [];
      forall t | t in last ensures t !in ExtendOne(s, init) {
        forall b' | b' in init ensures !(s[|s| - 1] == b'[0] && t == s + [b'[1]]) {
          var j :| 0 <= j < |init| && init[j] == b';
          assert blocks[j] == b';
          assert b == [b[0], b[1]] && b' == [b'[0], b'[1]];
          assert (s + [b'[1]])[|s|] == b'[1] && t[|s|] == b[1];
        }
        ExtendOneMembers(s, init, t);
      }
      DistinctConcat(ExtendOne(s, init), last);
    }
  }

  lemma {:induction false} ExtendDistinct(prev: seq<Rows>, blocks: seq<Rows>)
    requires Distinct(prev) && Distinct(blocks) && NoneEmpty(prev) && AllBlocks(blocks)
    ensures Distinct(Extend(prev, blocks))
    decreases |prev|
  {
    if prev != [] {
      var init, last := prev[..|prev| - 1], prev[|prev| - 1];
      ExtendDistinct(init, blocks);
      ExtendOneDistinct(last, blocks);
      forall t | t in ExtendOne(last, blocks) ensures t !in Extend(init, blocks) {
        ExtendOneMembers(last, blocks, t);
        var b :| b in blocks && last[|last| - 1] == b[0] && t == last + [b[1]];
        assert t[..|last|] == last;
        forall s, b' | s in init && b' in blocks ensures t != s + [b'[1]] {
          var j :| 0 <= j < |init| && init[j] == s;
          assert prev[j] == s;
          assert (s + [b'[1]])[..|s|] == s;
        }
        ExtendMembers(init, blocks, t);
      }
      DistinctConcat(Extend(init, blocks), ExtendOne(last, blocks));
    }
  }

  lemma {:induction false} StacksDistinct(column: seq<bool>, i: nat)
    requires 1 <= i <= |column|
    ensures Distinct(StacksUpTo(column, i))
    decreases i
  {
    PreimagesCounted();
    if i > 1 {
      StacksDistinct(column, i - 1);
      ExtendDistinct(StacksUpTo(column, i - 1), Preimages(column[i - 1]));
    }
  }

  /** The inner loops of the stacking: every stack with every block whose top row is the stack's bottom row. */
  method ExtendStacks(possibleColumnPairs: seq<Rows>, blocks: seq<Rows>) returns (newCols: seq<Rows>)
    requires NoneEmpty(possibleColumnPairs) && AllBlocks(blocks)
    ensures newCols == Extend(possibleColumnPairs, blocks)
  {
    newCols := [];
    var j := 0;
    while j < |possibleColumnPairs|
      invariant 0 <= j <= |possibleColumnPairs|
      invariant newCols == Extend(possibleColumnPairs[..j], blocks)
    {
      var pcp := possibleColumnPairs[j];
      var k := 0;
      while k < |blocks|
        invariant 0 <= k <= |blocks|
        invariant newCols == Extend(possibleColumnPairs[..j], blocks) + ExtendOne(pcp, blocks[..k])
      {
        var p := blocks[k];
        assert blocks[..k + 1][..k] == blocks[..k];
        if pcp[|pcp| - 1] == p[0] {
          newCols := newCols + [pcp + [p[1]]];
        }
        k := k + 1;
      }
      assert blocks[..k] == blocks;
      assert possibleColumnPairs[..j + 1][..j] == possibleColumnPairs[..j];
      j := j + 1;
    }
    assert possibleColumnPairs[..j] == possibleColumnPairs;
  }

  lemma StacksUpToNext(column: seq<bool>, i: nat)
    requires 1 <= i < |column|
    ensures StacksUpTo(column, i + 1) == Extend(StacksUpTo(column, i), Preimages(column[i]))
  {
  }

  /**
   * The stacking loop of `create_possible_column_pairs`: the blocks of the
   * first cell, then, cell by cell, the stacks extended below.
   */
  method StackPreimages(column: seq<bool>) returns (possibleColumnPairs: seq<Rows>)
    ensures possibleColumnPairs == Stacks(column)
  {
    possibleColumnPairs := [];
    var i := 0;
    while i < |column|
      invariant 0 <= i <= |column|
      invariant i == 0 ==> possibleColumnPairs == []
      invariant i >= 1 ==> possibleColumnPairs == StacksUpTo(column, i)
    {
      possibleColumnPairs := NextStacks(column, i, possibleColumnPairs);
      i := i + 1;
    }
  }

  /** One pass of the stacking loop, for cell `i`. */
  method NextStacks(column: seq<bool>, i: nat, possibleColumnPairs: seq<Rows>) returns (newCols: seq<Rows>)
    requires i < |column| && (i >= 1 ==> possibleColumnPairs == StacksUpTo(column, i))
    ensures newCols == StacksUpTo(column, i + 1)
  {
    var gas := column[i];
    if i == 0 {
      newCols := Preimages(gas);
    } else {
      newCols := ExtendStacks(possibleColumnPairs, Preimages(gas));
      StacksUpToNext(column, i);
    }
  }

  /** The stacks built for a column are exactly the stacks that fit it, each listed once. */
  lemma StacksExact(column: seq<bool>, t: Rows)
    requires column != []
    ensures t in Stacks(column) <==> Fits(t, column)
    ensures Distinct(Stacks(column))
  {
    assert column[..|column|] == column;
    StacksSound(column, |column|);
    if Fits(t, column) {
      StacksComplete(column, |column|, t);
    }
    StacksDistinct(column, |column|);
  }

  /** Column `j` of a stack of rows; a row too short to have it reads as empty. */
  function Column(t: Rows, j: nat): (col: seq<bool>)
    ensures |col| == |t|
  {
    seq(|t|, r requires 0 <= r < |t| => if j < |t[r]| then t[r][j] else false)
  }

  /** Two columns side by side as rows of two cells. */
  function Zip(left: seq<bool>, right: seq<bool>): (t: Rows)
    requires |left| == |right|
    ensures |t| == |left|
  {
    seq(|left|, r requires 0 <= r < |left| => [left[r], right[r]])
  }

  ghost predicate Wide(t: Rows)
  {
    forall r :: 0 <= r < |t| ==> |t[r]| == 2
  }

  /** Splitting rows of two cells into columns and zipping them back gives the rows. */
  lemma ZipColumns(t: Rows)
    requires Wide(t)
    ensures Zip(Column(t, 0), Column(t, 1)) == t
  {
    var z := Zip(Column(t, 0), Column(t, 1));
    forall r | 0 <= r < |t| ensures z[r] == t[r] {
      assert t[r] == [t[r][0], t[r][1]];
    }
  }

  lemma ColumnsOfZip(left: seq<bool>, right: seq<bool>)
    requires |left| == |right|
    ensures Wide(Zip(left, right))
    ensures Column(Zip(left, right), 0) == left && Column(Zip(left, right), 1) == right
  {
  }

  /** Python's `transpose` of a stack of two-cell rows: its left and right columns. */
  lemma TransposeStack(t: Rows)
    requires t != [] && Wide(t)
    ensures Transpose(t) == [Column(t, 0), Column(t, 1)]
  {
    var m := Transpose(t);
    assert |m| == 2;
    assert m[0] == Column(t, 0);
    assert m[1] == Column(t, 1);
  }

  /** A stack as the pair of its encoded left and right columns. */
  function EncodePair(t: Rows): (pair: seq<int>)
    ensures |pair| == 2 && 0 <= pair[0] < Pow2(|t|) && 0 <= pair[1] < Pow2(|t|)
  {
    [Encode(Column(t, 0)), Encode(Column(t, 1))]
  }

  /** Read as `n` bits, any number below 2^n encodes back to itself. */
  lemma {:induction false} EncodeDecode(v: nat, n: nat)
    requires v < Pow2(n)
    ensures Encode(Decode(v, n)) == v
    decreases n
  {
    if n > 0 {
      var d := Decode(v, n);
      assert d[1..] == Decode(v / 2, n - 1);
      EncodeDecode(v / 2, n - 1);
    }
  }

  /** Stacks of one height with the same encoded pair are the same stack. */
  lemma EncodePairInjective(t: Rows, u: Rows)
    requires Wide(t) && Wide(u) && |t| == |u| && EncodePair(t) == EncodePair(u)
    ensures t == u
  {
    EncodeInjective(Column(t, 0), Column(u, 0));
    EncodeInjective(Column(t, 1), Column(u, 1));
    ZipColumns(t);
    ZipColumns(u);
  }

  /** The encoded pairs of all preimage stacks of `column`, in stacking order. */
  function Pairs(column: seq<bool>): (pairs: seq<seq<int>>)
    ensures forall k :: 0 <= k < |pairs| ==> |pairs[k]| == 2
  {
    var stacks := Stacks(column);
    seq(|stacks|, k requires 0 <= k < |stacks| => EncodePair(stacks[k]))
  }

  /**
   * `[l, r]` is a listed pair exactly when both are (n + 1)-bit numbers and
   * the columns they encode, side by side, evolve into the n cells of `column`.
   */
  lemma PairsExact(column: seq<bool>, l: int, r: int)
    requires column != []
    ensures [l, r] in Pairs(column) <==>
      0 <= l < Pow2(|column| + 1) && 0 <= r < Pow2(|column| + 1)
      && Fits(Zip(Decode(l, |column| + 1), Decode(r, |column| + 1)), column)
  {
    if [l, r] in Pairs(column) {
      PairDecodes(column, l, r);
    }
    var n := |column| + 1;
    if 0 <= l < Pow2(n) && 0 <= r < Pow2(n) && Fits(Zip(Decode(l, n), Decode(r, n)), column) {
      PairListed(column, l, r);
    }
  }

  lemma PairDecodes(column: seq<bool>, l: int, r: int)
    requires column != [] && [l, r] in Pairs(column)
    ensures 0 <= l < Pow2(|column| + 1) && 0 <= r < Pow2(|column| + 1)
    ensures Fits(Zip(Decode(l, |column| + 1), Decode(r, |column| + 1)), column)
  {
    var stacks, pairs := Stacks(column), Pairs(column);
    var k :| 0 <= k < |pairs| && pairs[k] == [l, r];
    var t := stacks[k];
    assert t in stacks;
    StacksExact(column, t);
    assert Fits(t, column) && Wide(t) && |t| == |column| + 1;
    var left, right := Column(t, 0), Column(t, 1);
    assert pairs[k] == EncodePair(t) == [Encode(left), Encode(right)];
    DecodeEncode(left);
    DecodeEncode(right);
    ZipColumns(t);
  }

  lemma PairListed(column: seq<bool>, l: int, r: int)
    requires column != []
    requires 0 <= l < Pow2(|column| + 1) && 0 <= r < Pow2(|column| + 1)
    requires Fits(Zip(Decode(l, |column| + 1), Decode(r, |column| + 1)), column)
    ensures [l, r] in Pairs(column)
  {
    var n := |column| + 1;
    var stacks, pairs := Stacks(column), Pairs(column);
    var t := Zip(Decode(l, n), Decode(r, n));
    StacksExact(column, t);
    var k :| 0 <= k < |stacks| && stacks[k] == t;
    ColumnsOfZip(Decode(l, n), Decode(r, n));
    EncodeDecode(l, n);
    EncodeDecode(r, n);
    assert pairs[k] == [l, r];
  }

  /** No pair is listed twice. */
  lemma PairsDistinct(column: seq<bool>)
    requires column != []
    ensures Distinct(Pairs(column))
  {
    var stacks, pairs := Stacks(column), Pairs(column);
    forall i, j | 0 <= i < j < |pairs| ensures pairs[i] != pairs[j] {
      StacksExact(column, stacks[i]);
      StacksExact(column, stacks[j]);
      if pairs[i] == pairs[j] {
        EncodePairInjective(stacks[i], stacks[j]);
      }
    }
  }

  /** Every listed stack has rows of two cells, one more row than the column. */
  lemma StackWide(column: seq<bool>, k: int)
    requires 0 <= k < |Stacks(column)|
    ensures |Stacks(column)[k]| == |column| + 1
    ensures forall r :: 0 <= r < |Stacks(column)[k]| ==> |Stacks(column)[k][r]| == 2
  {
    var t := Stacks(column)[k];
    assert column != [];
    assert t in Stacks(column);
    StacksExact(column, t);
    assert Fits(t, column);
  }

  lemma PairsSnoc(column: seq<bool>, k: int)
    requires 0 <= k < |Stacks(column)|
    ensures Pairs(column)[..k + 1] == Pairs(column)[..k] + [EncodePair(Stacks(column)[k])]
  {
    var pairs := Pairs(column);
    assert |pairs| == |Stacks(column)|;
    assert pairs[k..k + 1] == [EncodePair(Stacks(column)[k])];
    SliceJoin(pairs, 0, k, k + 1);
    assert pairs[0..k] == pairs[..k] && pairs[0..k + 1] == pairs[..k + 1];
  }

  /**
   * `create_possible_column_pairs` up to its return value in the brute-force
   * version: stack the preimages, then encode each stack's two columns.
   */
  method PossibleColumnPairs(column: seq<bool>) returns (pairs: seq<seq<int>>)
    ensures pairs == Pairs(column)
  {
    var possibleColumnPairs := StackPreimages(column);
    if column != [] {
      StacksExact(column, []);
    }
    pairs := [];
    var k := 0;
    while k < |possibleColumnPairs|
      invariant 0 <= k <= |possibleColumnPairs|
      invariant pairs == Pairs(column)[..k]
    {
      var colPair := possibleColumnPairs[k];
      StackWide(column, k);
      TransposeStack(colPair);
      PairsSnoc(column, k);
      var columns := Transpose(colPair);
      var left := ColumnToInt(columns[0]);
      var right := ColumnToInt(columns[1]);
      pairs := pairs + [[left, right]];
      k := k + 1;
    }
  }
}
