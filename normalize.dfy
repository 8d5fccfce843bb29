/**
 * Normalisation of the indicator matrix in mca.ts (lines 15-20 and 98-117): Z is scaled in place by
 * 1/totalCount while the row and column marginals D_r and D_c accumulate, then overwritten in place
 * with the standardised residuals D_invR[i]·D_invC[j]·(Z[i][j] - D_r[i]·D_c[j]).
 *
 * Z is an `array2<real>` here (the source's array of equally long row arrays). `Math.sqrt` is a
 * parameter `sqrt`, of which only the sign is known: 0 at 0 and positive on positives.
 */
module Normalize {
  import opened Seqs
  import opened Matrix
  import opened Categories
  import opened Indicator

  /** Marginals at or below this are treated as empty by invSqrt. */
  const Threshold: real := 0.000001

  /** invSqrt: the reciprocal square root of a marginal, and 0 for a marginal at or below 1e-6. */
  function InvSqrt(x: real, sqrt: real -> real): (r: real)
    requires RootLike(sqrt)
    ensures x <= Threshold ==> r == 0.0
    ensures x > Threshold ==> r > 0.0 && r * sqrt(x) == 1.0
  {
    if x > Threshold then 1.0 / sqrt(x) else 0.0
  }

  /** With an exact square root, invSqrt squared is the reciprocal of every marginal above 1e-6. */
  lemma InvSqrtSquared(x: real, sqrt: real -> real)
    requires RootLike(sqrt) && x > Threshold && sqrt(x) * sqrt(x) == x
    ensures InvSqrt(x, sqrt) * InvSqrt(x, sqrt) * x == 1.0
  {
    var r, q := InvSqrt(x, sqrt), sqrt(x);
    calc {
      r * r * x;
      r * r * (q * q);
      (r * q) * (r * q);
      1.0;
    }
  }

  /** `d.map(invSqrt)`: zero exactly at the marginals at or below 1e-6. */
  function InvSqrtEach(d: seq<real>, sqrt: real -> real): (r: seq<real>)
    requires RootLike(sqrt)
    ensures |r| == |d|
    ensures forall i :: 0 <= i < |d| ==> (r[i] == 0.0 <==> d[i] <= Threshold) && r[i] >= 0.0
  {
    seq(|d|, i requires 0 <= i < |d| => InvSqrt(d[i], sqrt))
  }

  /** The contents of Z, row by row. */
  function Rows(Z: array2<real>): (M: Mat)
    reads Z
    ensures IsMatrix(M, Z.Length0, Z.Length1)
  {
    seq(Z.Length0, i requires 0 <= i < Z.Length0 reads Z =>
      seq(Z.Length1, j requires 0 <= j < Z.Length1 reads Z => Z[i, j]))
  }

  /** Every entry of M multiplied by c. */
  function Scaled(M: Mat, c: real): (R: Mat)
    ensures |R| == |M| && forall i :: 0 <= i < |M| ==> R[i] == Scale(M[i], c)
  {
    seq(|M|, i requires 0 <= i < |M| => Scale(M[i], c))
  }

  /** The standardised residual matrix, entry by entry. */
  function ResidualOf(M: Mat, dr: seq<real>, dc: seq<real>, invR: seq<real>, invC: seq<real>): (R: Mat)
    requires IsMatrix(M, |dr|, |dc|) && |invR| == |dr| && |invC| == |dc|
    ensures IsMatrix(R, |dr|, |dc|)
  {
    seq(|dr|, i requires 0 <= i < |dr| =>
      seq(|dc|, j requires 0 <= j < |dc| => invR[i] * invC[j] * (M[i][j] - dr[i] * dc[j])))
  }

  /** Copies a matrix of rows into a fresh two-dimensional array. */
  method Load(M: Mat, n: nat) returns (Z: array2<real>)
    requires IsMatrix(M, |M|, n)
    ensures fresh(Z) && Z.Length0 == |M| && Z.Length1 == n
    ensures Rows(Z) == M
  {
    Z := new real[|M|, n];
    var i := 0;
    while i < |M|
      invariant 0 <= i <= |M|
      invariant forall a, b :: 0 <= a < i && 0 <= b < n ==> Z[a, b] == M[a][b]
    {
      var j := 0;
      while j < n
        invariant 0 <= j <= n
        invariant forall a, b :: 0 <= a < i && 0 <= b < n ==> Z[a, b] == M[a][b]
        invariant forall b :: 0 <= b < j ==> Z[i, b] == M[i][b]
      {
        Z[i, j] := M[i][j];
        j := j + 1;
      }
      i := i + 1;
    }
    assert forall a :: 0 <= a < |M| ==> Rows(Z)[a] == M[a];
  }

  /** Adding the next term of a prefix sum. */
  lemma PrefixSumStep(s: seq<real>, j: nat)
    requires j < |s|
    ensures Sum(s[..j + 1]) == Sum(s[..j]) + s[j]
  {
    assert s[..j + 1][..j] == s[..j];
  }

  /** The sum of column b over the first i rows of S. */
  ghost function ColumnPrefix(S: Mat, i: nat, b: nat): real
    requires i <= |S| && forall a :: 0 <= a < |S| ==> b < |S[a]|
  {
    Sum(Column(S[..i], b))
  }

  /** Adding the next row to a column sum. */
  lemma ColumnSumStep(S: Mat, i: nat, b: nat)
    requires i < |S| && forall a :: 0 <= a < |S| ==> b < |S[a]|
    ensures ColumnPrefix(S, i + 1, b) == ColumnPrefix(S, i, b) + S[i][b]
  {
    assert Column(S[..i + 1], b)[..i] == Column(S[..i], b);
  }

  /**
   * The inner loop of the scaling step, for row i: scales Z[i][j] in place, adds it to D_r[i] and
   * to D_c[j].
   */
  method ScaleRow(Z: array2<real>, i: nat, scale: real, Dr: array<real>, Dc: array<real>, ghost S: Mat)
    requires i < Z.Length0 && Dr.Length == Z.Length0 && Dc.Length == Z.Length1 && Dr != Dc
    requires IsMatrix(S, Z.Length0, Z.Length1)
    requires forall b :: 0 <= b < Z.Length1 ==> S[i][b] == Z[i, b] * scale
    requires Dr[i] == 0.0
    requires forall b :: 0 <= b < Z.Length1 ==> Dc[b] == ColumnPrefix(S, i, b)
    modifies Z, Dr, Dc
    ensures forall b :: 0 <= b < Z.Length1 ==> Z[i, b] == S[i][b]
    ensures forall a, b :: 0 <= a < Z.Length0 && a != i && 0 <= b < Z.Length1 ==> Z[a, b] == old(Z[a, b])
    ensures Dr[i] == Sum(S[i])
    ensures forall a :: 0 <= a < Dr.Length && a != i ==> Dr[a] == old(Dr[a])
    ensures forall b :: 0 <= b < Z.Length1 ==> Dc[b] == ColumnPrefix(S, i + 1, b)
  {
    var n := Z.Length1;
    var j := 0;
    while j < n
      invariant 0 <= j <= n
      invariant forall b :: 0 <= b < j ==> Z[i, b] == S[i][b]
      invariant forall b :: j <= b < n ==> Z[i, b] == old(Z[i, b])
      invariant forall a, b :: 0 <= a < Z.Length0 && a != i && 0 <= b < n ==> Z[a, b] == old(Z[a, b])
      invariant Dr[i] == Sum(S[i][..j])
      invariant forall a :: 0 <= a < Dr.Length && a != i ==> Dr[a] == old(Dr[a])
      invariant forall b :: 0 <= b < j ==> Dc[b] == ColumnPrefix(S, i + 1, b)
      invariant forall b :: j <= b < n ==> Dc[b] == ColumnPrefix(S, i, b)
    {
      PrefixSumStep(S[i], j);
      ColumnSumStep(S, i, j);
      Z[i, j] := Z[i, j] * scale;
      var v := Z[i, j];
      Dr[i] := Dr[i] + v;
      Dc[j] := Dc[j] + v;
      j := j + 1;
    }
    assert S[i][..j] == S[i];
  }

  /** The outer loop of the scaling step, over the rows of Z, with D_r and D_c starting at zero. */
  method ScaleRows(Z: array2<real>, scale: real, Dr: array<real>, Dc: array<real>, ghost S: Mat)
    requires Dr.Length == Z.Length0 && Dc.Length == Z.Length1 && Dr != Dc
    requires IsMatrix(S, Z.Length0, Z.Length1)
    requires forall a, b :: 0 <= a < Z.Length0 && 0 <= b < Z.Length1 ==> S[a][b] == Z[a, b] * scale
    requires forall a :: 0 <= a < Dr.Length ==> Dr[a] == 0.0
    requires forall b :: 0 <= b < Dc.Length ==> Dc[b] == 0.0
    modifies Z, Dr, Dc
    ensures forall a, b :: 0 <= a < Z.Length0 && 0 <= b < Z.Length1 ==> Z[a, b] == S[a][b]
    ensures forall a :: 0 <= a < Dr.Length ==> Dr[a] == Sum(S[a])
    ensures forall b :: 0 <= b < Dc.Length ==> Dc[b] == ColumnPrefix(S, |S|, b)
  {
    var m, n := Z.Length0, Z.Length1;
    assert forall b :: 0 <= b < n ==> Column(S[..0], b) == [];
    var i := 0;
    while i < m
      invariant 0 <= i <= m
      invariant forall a, b :: 0 <= a < i && 0 <= b < n ==> Z[a, b] == S[a][b]
      invariant forall a, b :: i <= a < m && 0 <= b < n ==> S[a][b] == Z[a, b] * scale
      invariant forall a :: 0 <= a < i ==> Dr[a] == Sum(S[a])
      invariant forall a :: i <= a < m ==> Dr[a] == 0.0
      invariant forall b :: 0 <= b < n ==> Dc[b] == ColumnPrefix(S, i, b)
    {
      ScaleRow(Z, i, scale, Dr, Dc, S);
      i := i + 1;
    }
  }

  /**
   * The scaling step: every entry of Z is multiplied in place by `scale` (1/totalCount), and D_r and
   * D_c, allocated as zeros, end up holding the row and column sums of the scaled matrix.
   */
  method ScaleAndSum(Z: array2<real>, scale: real) returns (Dr: array<real>, Dc: array<real>)
    modifies Z
    ensures fresh(Dr) && fresh(Dc)
    ensures Rows(Z) == Scaled(old(Rows(Z)), scale)
    ensures Dr[..] == RowSums(Rows(Z))
    ensures Dc[..] == ColSums(Rows(Z), Z.Length1)
    ensures Sum(Dr[..]) == Sum(Dc[..])
  {
    ghost var S := Scaled(Rows(Z), scale);
    var m, n := Z.Length0, Z.Length1;
    Dr := new real[m](_ => 0.0);
    Dc := new real[n](_ => 0.0);
    ScaleRows(Z, scale, Dr, Dc, S);
    assert Rows(Z) == S by {
      forall a | 0 <= a < m ensures Rows(Z)[a] == S[a] {
        assert forall b :: 0 <= b < n ==> Rows(Z)[a][b] == S[a][b];
      }
    }
    assert Dr[..] == RowSums(S);
    assert Dc[..] == ColSums(S, n) by {
      assert S[..m] == S;
      assert forall b :: 0 <= b < n ==> Dc[b] == ColumnPrefix(S, m, b) == ColSums(S, n)[b];
    }
    RowAndColumnTotals(S, n);
  }

  /** The residual loop: overwrites every Z[i][j] with its standardised residual. */
  method Residual(Z: array2<real>, Dr: seq<real>, Dc: seq<real>, DinvR: seq<real>, DinvC: seq<real>)
    requires |Dr| == |DinvR| == Z.Length0 && |Dc| == |DinvC| == Z.Length1
    modifies Z
    ensures Rows(Z) == ResidualOf(old(Rows(Z)), Dr, Dc, DinvR, DinvC)
  {
    ghost var M := Rows(Z);
    var m, n := Z.Length0, Z.Length1;
    var i := 0;
    while i < m
      invariant 0 <= i <= m
      invariant forall a, b :: 0 <= a < m && 0 <= b < n ==>
        Z[a, b] == if a < i then DinvR[a] * DinvC[b] * (M[a][b] - Dr[a] * Dc[b]) else M[a][b]
    {
      var j := 0;
      while j < n
        invariant 0 <= j <= n
        invariant forall a, b :: 0 <= a < m && 0 <= b < n ==>
          Z[a, b] == if a < i || (a == i && b < j) then DinvR[a] * DinvC[b] * (M[a][b] - Dr[a] * Dc[b]) else M[a][b]
      {
        Z[i, j] := DinvR[i] * DinvC[j] * (Z[i, j] - Dr[i] * Dc[j]);
        j := j + 1;
      }
      i := i + 1;
    }
    ghost var R := ResidualOf(M, Dr, Dc, DinvR, DinvC);
    forall a | 0 <= a < m ensures Rows(Z)[a] == R[a] {
      assert forall b :: 0 <= b < n ==> Rows(Z)[a][b] == R[a][b];
    }
  }

  /**
   * A residual entry is 0 exactly when its row or column marginal is at or below 1e-6, or the
   * scaled entry equals the product of its marginals (row and column independent there).
   */
  lemma ResidualVanishes(M: Mat, dr: seq<real>, dc: seq<real>, sqrt: real -> real, i: nat, j: nat)
    requires RootLike(sqrt) && IsMatrix(M, |dr|, |dc|) && i < |dr| && j < |dc|
    ensures var R := ResidualOf(M, dr, dc, InvSqrtEach(dr, sqrt), InvSqrtEach(dc, sqrt));
            R[i][j] == 0.0 <==> dr[i] <= Threshold || dc[j] <= Threshold || M[i][j] == dr[i] * dc[j]
  {
    var a, b := InvSqrtEach(dr, sqrt)[i], InvSqrtEach(dc, sqrt)[j];
    var d := M[i][j] - dr[i] * dc[j];
    if a != 0.0 && b != 0.0 && d != 0.0 {
      assert a * b != 0.0;
      assert a * b * d != 0.0;
    }
  }

  /** Each row of Z scaled by c sums to its old sum times c. */
  lemma ScaledRowSums(M: Mat, c: real)
    ensures RowSums(Scaled(M, c)) == Scale(RowSums(M), c)
  {
    forall i | 0 <= i < |M| ensures RowSums(Scaled(M, c))[i] == Scale(RowSums(M), c)[i] {
      SumScale(M[i], c);
    }
  }

  /** Scaling a matrix by the reciprocal of its total makes its row sums and its column sums add up to 1. */
  lemma ScaledTotalOne(M: Mat, n: nat, t: real)
    requires IsMatrix(M, |M|, n) && Sum(RowSums(M)) == t && t != 0.0
    ensures IsMatrix(Scaled(M, 1.0 / t), |M|, n)
    ensures Sum(RowSums(Scaled(M, 1.0 / t))) == 1.0 && Sum(ColSums(Scaled(M, 1.0 / t), n)) == 1.0
  {
    var Z := Scaled(M, 1.0 / t);
    ScaledRowSums(M, 1.0 / t);
    SumScale(RowSums(M), 1.0 / t);
    assert Sum(RowSums(Z)) == t * (1.0 / t) == 1.0;
    RowAndColumnTotals(Z, n);
  }

  /**
   * After scaling by 1/totalCount, all the entries of Z add up to 1, and so do D_r and D_c: the
   * marginals are probability distributions over the rows and the columns.
   */
  lemma MarginalsTotalOne<V>(rows: seq<map<string, V>>, keys: seq<string>, cats: seq<seq<V>>)
    requires WellFormed(keys, cats) && TotalCount(rows, keys, cats) > 0
    ensures var Z := Scaled(IndicatorMatrix(rows, keys, cats), 1.0 / TotalCount(rows, keys, cats) as real);
            IsMatrix(Z, |rows|, Width(cats)) &&
            Sum(RowSums(Z)) == 1.0 && Sum(ColSums(Z, Width(cats))) == 1.0
  {
    var M := IndicatorMatrix(rows, keys, cats);
    MatrixSumIsCount(rows, keys, cats);
    ScaledTotalOne(M, Width(cats), TotalCount(rows, keys, cats) as real);
  }

  /** The standardised residual of a scaled indicator matrix, from its own marginals. */
  function ResidualMatrix(Z: Mat, n: nat, sqrt: real -> real): (R: Mat)
    requires IsMatrix(Z, |Z|, n) && RootLike(sqrt)
    ensures IsMatrix(R, |Z|, n)
  {
    var Dr, Dc := RowSums(Z), ColSums(Z, n);
    ResidualOf(Z, Dr, Dc, InvSqrtEach(Dr, sqrt), InvSqrtEach(Dc, sqrt))
  }

  /**
   * The normalisation passes of MCA on the rows the indicator map produced: scale by 1/totalCount
   * while summing the marginals, then overwrite with the standardised residual. Returns the residual
   * matrix and D_r, which the factor scores use.
   */
  method Standardise(M: Mat, n: nat, totalCount: nat, sqrt: real -> real) returns (R: Mat, Dr: seq<real>)
    requires IsMatrix(M, |M|, n) && RootLike(sqrt)
    requires totalCount > 0 || n == 0
    ensures var Z := Scaled(M, if totalCount == 0 then 0.0 else 1.0 / totalCount as real);
            IsMatrix(Z, |M|, n) && R == ResidualMatrix(Z, n, sqrt) && Dr == RowSums(Z)
  {
    var Z := Load(M, n);
    // totalCount is 0 only when there are no columns, and then the scale is never applied.
    var scale := if totalCount == 0 then 0.0 else 1.0 / totalCount as real;
    var DrA, DcA := ScaleAndSum(Z, scale);
    ghost var S := Rows(Z);
    assert S == Scaled(M, scale);
    var DinvR := InvSqrtEach(DrA[..], sqrt);
    var DinvC := InvSqrtEach(DcA[..], sqrt);
    Dr := DrA[..];
    Residual(Z, Dr, DcA[..], DinvR, DinvC);
    R := Rows(Z);
  }
}
