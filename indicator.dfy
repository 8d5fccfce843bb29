/**
 * The indicator matrix of mca.ts (lines 67-96): one row per observation, one block of columns per
 * kept variable, in key order. A variable the row names gets 1 in the column of each category equal
 * (`===`) to its value and 0 elsewhere; a variable the row leaves out gets 1/|categories| in every
 * column of its block. `totalCount` grows by one per match, and by one per missing variable.
 *
 * A row is modelled as a map from variable names to values: `key in obj` is membership in the map.
 */
module Indicator {
  import opened Seqs
  import opened Matrix
  import opened Categories

  /** 1 where the category equals v, 0 elsewhere. */
  function OneHot<V(==)>(cats: seq<V>, v: V): seq<real>
  {
    seq(|cats|, j requires 0 <= j < |cats| => if cats[j] == v then 1.0 else 0.0)
  }

  /** n copies of 1/n. */
  function Uniform(n: nat): seq<real>
    requires n > 0
  {
    seq(n, _ => 1.0 / n as real)
  }

  /** The number of categories equal to v. */
  function Matches<V(==)>(cats: seq<V>, v: V): (c: nat)
    ensures c == 0 <==> v !in cats
  {
    if |cats| == 0 then 0
    else
      assert cats == cats[..|cats| - 1] + [cats[|cats| - 1]];
      Matches(cats[..|cats| - 1], v) + if cats[|cats| - 1] == v then 1 else 0
  }

  /** The block one variable contributes to a row. */
  function Block<V(==)>(key: string, cats: seq<V>, obj: map<string, V>): seq<real>
    requires |cats| > 0
  {
    if key in obj then OneHot(cats, obj[key]) else Uniform(|cats|)
  }

  /** What one variable adds to totalCount. */
  function BlockCount<V(==)>(key: string, cats: seq<V>, obj: map<string, V>): nat
  {
    if key in obj then Matches(cats, obj[key]) else 1
  }

  /** Every category list is non-empty and there is one per key, as the unpacking guarantees. */
  predicate WellFormed<V>(keys: seq<string>, cats: seq<seq<V>>)
  {
    |keys| == |cats| && forall i :: 0 <= i < |cats| ==> |cats[i]| > 0
  }

  /** The indicator row of one observation: its blocks side by side, in key order. */
  function IndicatorRow<V(==)>(keys: seq<string>, cats: seq<seq<V>>, obj: map<string, V>): (row: seq<real>)
    requires WellFormed(keys, cats)
    ensures |row| == Width(cats)
  {
    if |keys| == 0 then []
    else
      var n := |keys| - 1;
      IndicatorRow(keys[..n], cats[..n], obj) + Block(keys[n], cats[n], obj)
  }

  /** What one observation adds to totalCount. */
  function RowCount<V(==)>(keys: seq<string>, cats: seq<seq<V>>, obj: map<string, V>): nat
    requires |keys| == |cats|
  {
    if |keys| == 0 then 0
    else
      var n := |keys| - 1;
      RowCount(keys[..n], cats[..n], obj) + BlockCount(keys[n], cats[n], obj)
  }

  /** totalCount after all the observations. */
  function TotalCount<V(==)>(rows: seq<map<string, V>>, keys: seq<string>, cats: seq<seq<V>>): nat
    requires |keys| == |cats|
  {
    if |rows| == 0 then 0
    else TotalCount(rows[..|rows| - 1], keys, cats) + RowCount(keys, cats, rows[|rows| - 1])
  }

  /** Z before scaling. */
  function IndicatorMatrix<V(==)>(rows: seq<map<string, V>>, keys: seq<string>, cats: seq<seq<V>>): Mat
    requires WellFormed(keys, cats)
  {
    seq(|rows|, r requires 0 <= r < |rows| => IndicatorRow(keys, cats, rows[r]))
  }

  /** Where the block of variable i starts in a row. */
  function Offset<V>(cats: seq<seq<V>>, i: nat): nat
    requires i <= |cats|
  {
    Width(cats[..i])
  }

  /** A missing variable: every entry is 1/|cats|, the block adds up to 1 and counts once. */
  lemma MissingBlock<V>(key: string, cats: seq<V>, obj: map<string, V>)
    requires |cats| > 0 && key !in obj
    ensures forall j :: 0 <= j < |cats| ==> Block(key, cats, obj)[j] == 1.0 / |cats| as real
    ensures Sum(Block(key, cats, obj)) == 1.0
    ensures BlockCount(key, cats, obj) == 1
  {
    var n := |cats|;
    SumConstant(n, 1.0 / n as real);
    assert Uniform(n) == seq(n, _ => 1.0 / n as real);
    assert n as real * (1.0 / n as real) == 1.0;
  }

  lemma {:induction false} OneHotSum<V>(cats: seq<V>, v: V)
    ensures Sum(OneHot(cats, v)) == Matches(cats, v) as real
    decreases |cats|
  {
    if |cats| > 0 {
      var n := |cats| - 1;
      assert OneHot(cats, v)[..n] == OneHot(cats[..n], v);
      OneHotSum(cats[..n], v);
    }
  }

  /**
   * A variable the row names: entry j is 1 exactly when category j equals the value, the block adds
   * up to the number of matches, and that is also what it adds to totalCount. A value that is not
   * among the categories gives an all-zero block that counts nothing.
   */
  lemma PresentBlock<V>(key: string, cats: seq<V>, obj: map<string, V>)
    requires |cats| > 0 && key in obj
    ensures forall j :: 0 <= j < |cats| ==>
      (Block(key, cats, obj)[j] == 1.0 <==> cats[j] == obj[key]) &&
      (Block(key, cats, obj)[j] == 0.0 <==> cats[j] != obj[key])
    ensures Sum(Block(key, cats, obj)) == BlockCount(key, cats, obj) as real
    ensures obj[key] !in cats ==>
      BlockCount(key, cats, obj) == 0 && forall j :: 0 <= j < |cats| ==> Block(key, cats, obj)[j] == 0.0
  {
    OneHotSum(cats, obj[key]);
  }

  /** A row adds up to exactly what it contributes to totalCount. */
  lemma {:induction false} RowSumIsCount<V>(keys: seq<string>, cats: seq<seq<V>>, obj: map<string, V>)
    requires WellFormed(keys, cats)
    ensures Sum(IndicatorRow(keys, cats, obj)) == RowCount(keys, cats, obj) as real
    decreases |keys|
  {
    if |keys| > 0 {
      var n := |keys| - 1;
      RowUnfold(keys, cats, obj);
      var front, block := IndicatorRow(keys[..n], cats[..n], obj), Block(keys[n], cats[n], obj);
      RowSumIsCount(keys[..n], cats[..n], obj);
      SumConcat(front, block);
      BlockSumIsCount(keys[n], cats[n], obj);
    }
  }

  /** The last variable's block and count, split off a row. */
  lemma RowUnfold<V>(keys: seq<string>, cats: seq<seq<V>>, obj: map<string, V>)
    requires WellFormed(keys, cats) && |keys| > 0
    ensures var n := |keys| - 1;
            WellFormed(keys[..n], cats[..n]) &&
            IndicatorRow(keys, cats, obj) == IndicatorRow(keys[..n], cats[..n], obj) + Block(keys[n], cats[n], obj) &&
            RowCount(keys, cats, obj) == RowCount(keys[..n], cats[..n], obj) + BlockCount(keys[n], cats[n], obj)
  {
  }

  /** A block adds up to what it contributes to totalCount, whether the variable is given or not. */
  lemma BlockSumIsCount<V>(key: string, cats: seq<V>, obj: map<string, V>)
    requires |cats| > 0
    ensures Sum(Block(key, cats, obj)) == BlockCount(key, cats, obj) as real
  {
    if key in obj {
      PresentBlock(key, cats, obj);
    } else {
      MissingBlock(key, cats, obj);
    }
  }

  /** All the entries of Z add up to totalCount. */
  lemma {:induction false} MatrixSumIsCount<V>(rows: seq<map<string, V>>, keys: seq<string>, cats: seq<seq<V>>)
    requires WellFormed(keys, cats)
    ensures Sum(RowSums(IndicatorMatrix(rows, keys, cats))) == TotalCount(rows, keys, cats) as real
    decreases |rows|
  {
    if |rows| > 0 {
      var n := |rows| - 1;
      assert RowSums(IndicatorMatrix(rows, keys, cats))[..n] == RowSums(IndicatorMatrix(rows[..n], keys, cats));
      MatrixSumIsCount(rows[..n], keys, cats);
      RowSumIsCount(keys, cats, rows[n]);
    }
  }

  /** Every row is made of consecutive blocks of width |cats[i]|, in key order. */
  lemma {:induction false} RowLayout<V>(keys: seq<string>, cats: seq<seq<V>>, obj: map<string, V>, i: nat, j: nat)
    requires WellFormed(keys, cats) && i < |keys| && j < |cats[i]|
    ensures Offset(cats, i) + j < Width(cats)
    ensures IndicatorRow(keys, cats, obj)[Offset(cats, i) + j] == Block(keys[i], cats[i], obj)[j]
    decreases |keys|
  {
    var n := |keys| - 1;
    RowUnfold(keys, cats, obj);
    var front := IndicatorRow(keys[..n], cats[..n], obj);
    assert Width(cats) == Width(cats[..n]) + |cats[n]|;
    if i == n {
      assert Offset(cats, i) == Width(cats[..n]) == |front|;
    } else {
      assert cats[..n][..i] == cats[..i];
      RowLayout(keys[..n], cats[..n], obj, i, j);
      assert Offset(cats[..n], i) == Offset(cats, i);
      assert Width(cats[..n]) <= Width(cats);
    }
  }

  /** Taking one more variable appends its block to the row and its count to the row's count. */
  lemma RowStep<V>(keys: seq<string>, cats: seq<seq<V>>, obj: map<string, V>, i: nat)
    requires WellFormed(keys, cats) && i < |keys|
    ensures WellFormed(keys[..i], cats[..i]) && WellFormed(keys[..i + 1], cats[..i + 1])
    ensures IndicatorRow(keys[..i + 1], cats[..i + 1], obj) ==
      IndicatorRow(keys[..i], cats[..i], obj) + Block(keys[i], cats[i], obj)
    ensures RowCount(keys[..i + 1], cats[..i + 1], obj) ==
      RowCount(keys[..i], cats[..i], obj) + BlockCount(keys[i], cats[i], obj)
  {
    assert keys[..i + 1][..i] == keys[..i];
    assert cats[..i + 1][..i] == cats[..i];
  }

  /**
   * One block of a row: with the variable present, 1 per matching category and one count per match;
   * with it missing, 1/|cats| throughout and one count. `totalCount` is carried in and out.
   */
  method AddBlock<V(==)>(key: string, cats: seq<V>, obj: map<string, V>, count: nat)
    returns (block: seq<real>, totalCount: nat)
    requires |cats| > 0
    ensures block == Block(key, cats, obj)
    ensures totalCount == count + BlockCount(key, cats, obj)
  {
    block, totalCount := [], count;
    if key in obj {
      var v := obj[key];
      var j := 0;
      while j < |cats|
        invariant 0 <= j <= |cats|
        invariant block == OneHot(cats[..j], v)
        invariant totalCount == count + Matches(cats[..j], v)
      {
        assert cats[..j + 1][..j] == cats[..j];
        if cats[j] == v {
          block := block + [1.0];
          totalCount := totalCount + 1;
        } else {
          block := block + [0.0];
        }
        j := j + 1;
      }
      assert cats[..j] == cats;
    } else {
      var j := 0;
      while j < |cats|
        invariant 0 <= j <= |cats|
        invariant block == seq(j, _ => 1.0 / |cats| as real)
      {
        block := block + [1.0 / |cats| as real];
        j := j + 1;
      }
      totalCount := totalCount + 1;
    }
  }

  /** One row of Z: the blocks of the kept variables in key order, counted as they are built. */
  method AddRow<V(==)>(columnKeys: seq<string>, columnCategories: seq<seq<V>>, obj: map<string, V>, count: nat)
    returns (row: seq<real>, totalCount: nat)
    requires WellFormed(columnKeys, columnCategories)
    ensures row == IndicatorRow(columnKeys, columnCategories, obj)
    ensures totalCount == count + RowCount(columnKeys, columnCategories, obj)
  {
    row, totalCount := [], count;
    var i := 0;
    while i < |columnKeys|
      invariant 0 <= i <= |columnKeys|
      invariant row == IndicatorRow(columnKeys[..i], columnCategories[..i], obj)
      invariant totalCount == count + RowCount(columnKeys[..i], columnCategories[..i], obj)
    {
      RowStep(columnKeys, columnCategories, obj, i);
      var block;
      block, totalCount := AddBlock(columnKeys[i], columnCategories[i], obj, totalCount);
      row := row + block;
      i := i + 1;
    }
    assert columnKeys[..i] == columnKeys && columnCategories[..i] == columnCategories;
  }

  /** The map over the rows: Z one row per observation, and the running totalCount. */
  method BuildIndicator<V(==)>(rows: seq<map<string, V>>, columnKeys: seq<string>, columnCategories: seq<seq<V>>)
    returns (Z: Mat, totalCount: nat)
    requires WellFormed(columnKeys, columnCategories)
    ensures Z == IndicatorMatrix(rows, columnKeys, columnCategories)
    ensures totalCount == TotalCount(rows, columnKeys, columnCategories)
  {
    Z, totalCount := [], 0;
    var r := 0;
    while r < |rows|
      invariant 0 <= r <= |rows|
      invariant Z == IndicatorMatrix(rows[..r], columnKeys, columnCategories)
      invariant totalCount == TotalCount(rows[..r], columnKeys, columnCategories)
    {
      assert rows[..r + 1][..r] == rows[..r];
      var row;
      row, totalCount := AddRow(columnKeys, columnCategories, rows[r], totalCount);
      Z := Z + [row];
      r := r + 1;
    }
    assert rows[..r] == rows;
  }
}
