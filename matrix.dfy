/** Matrices as arrays of rows (the source's `number[][]`), transposition and marginal sums. */
module Matrix {
  import opened Seqs

  type Mat = seq<seq<real>>

  /** x has m rows, each of length n. */
  predicate IsMatrix(x: Mat, m: nat, n: nat)
  {
    |x| == m && forall i :: 0 <= i < m ==> |x[i]| == n
  }

  /** At least one row, and every row as long as the first: what reading `x[0].length` presumes. */
  predicate Rectangular(x: Mat)
  {
    |x| > 0 && IsMatrix(x, |x|, |x[0]|)
  }

  function Abs(x: real): real
  {
    if x < 0.0 then -x else x
  }

  /** What is known of `Math.sqrt`: it maps 0 to 0 and positives to positives. */
  ghost predicate RootLike(sqrt: real -> real)
  {
    sqrt(0.0) == 0.0 && forall x :: x > 0.0 ==> sqrt(x) > 0.0
  }

  /** The transpose as a value: one row per column of x. */
  function Transposed(x: Mat): Mat
    requires Rectangular(x)
  {
    seq(|x[0]|, i requires 0 <= i < |x[0]| => seq(|x|, j requires 0 <= j < |x| => x[j][i]))
  }

  /** Builds the transpose row by row, pushing one column of x at a time. */
  method Transpose(x: Mat) returns (r: Mat)
    requires Rectangular(x)
    ensures r == Transposed(x)
    ensures IsMatrix(r, |x[0]|, |x|)
    ensures forall i, j :: 0 <= i < |x[0]| && 0 <= j < |x| ==> r[i][j] == x[j][i]
  {
    r := [];
    var i := 0;
    while i < |x[0]|
      invariant 0 <= i <= |x[0]|
      invariant IsMatrix(r, i, |x|)
      invariant forall i', j :: 0 <= i' < i && 0 <= j < |x| ==> r[i'][j] == x[j][i']
    {
      var row: seq<real> := [];
      var j := 0;
      while j < |x|
        invariant 0 <= j <= |x|
        invariant |row| == j
        invariant forall j' :: 0 <= j' < j ==> row[j'] == x[j'][i]
      {
        row := row + [x[j][i]];
        j := j + 1;
      }
      r := r + [row];
      i := i + 1;
    }
    assert forall i' :: 0 <= i' < |r| ==> r[i'] == Transposed(x)[i'];
  }

  /** Transposing twice gives back the matrix (it needs at least one column to be transposable again). */
  lemma TransposeInvolution(x: Mat)
    requires Rectangular(x) && |x[0]| > 0
    ensures Rectangular(Transposed(x)) && Transposed(Transposed(x)) == x
  {
    var t := Transposed(x);
    assert |t| == |x[0]| && |t[0]| == |x|;
    forall i | 0 <= i < |x| ensures Transposed(t)[i] == x[i] {
      assert forall j :: 0 <= j < |x[0]| ==> Transposed(t)[i][j] == t[j][i] == x[i][j];
    }
  }

  /** Column j of M. */
  function Column(M: Mat, j: nat): seq<real>
    requires forall i :: 0 <= i < |M| ==> j < |M[i]|
  {
    seq(|M|, i requires 0 <= i < |M| => M[i][j])
  }

  /** The sum of each row. */
  function RowSums(M: Mat): seq<real>
  {
    seq(|M|, i requires 0 <= i < |M| => Sum(M[i]))
  }

  /** The sum of each of the n columns. */
  function ColSums(M: Mat, n: nat): seq<real>
    requires IsMatrix(M, |M|, n)
  {
    seq(n, j requires 0 <= j < n => Sum(Column(M, j)))
  }

  /** Adding up the row sums or the column sums gives the same total. */
  lemma {:induction false} RowAndColumnTotals(M: Mat, n: nat)
    requires IsMatrix(M, |M|, n)
    ensures Sum(RowSums(M)) == Sum(ColSums(M, n))
    decreases |M|
  {
    if |M| == 0 {
      SumConstant(n, 0.0);
      assert ColSums(M, n) == seq(n, _ => 0.0);
    } else {
      var m := |M| - 1;
      var M' := M[..m];
      assert RowSums(M)[..m] == RowSums(M');
      forall j | 0 <= j < n ensures ColSums(M, n)[j] == AddPointwise(ColSums(M', n), M[m])[j] {
        assert Column(M, j)[..m] == Column(M', j);
      }
      assert ColSums(M, n) == AddPointwise(ColSums(M', n), M[m]);
      SumPointwiseAdd(ColSums(M', n), M[m]);
      RowAndColumnTotals(M', n);
    }
  }
}
