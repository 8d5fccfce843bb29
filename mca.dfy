/**
 * The MCA pipeline of mca.ts (lines 34-173): unpack the categories, build the indicator matrix,
 * normalise it into standardised residuals, factor it with the external SVD (through
 * reallyDoTheSVD, which transposes wide matrices), correct the eigenvalues, count the rank, and
 * compute the explained variance and the factor scores.
 *
 * The pipeline uses reallyDoTheSVD with its wide branch corrected (`ReallyDoTheSvd`). As written,
 * that branch hands back the right singular vectors as P (`ReallyDoTheSvdAsWritten`), so on a wide
 * residual matrix the source's factor scores read P[i][j] from the wrong factor.
 *
 * `MCA` returns `{factorScores, explainedVariance}` or, where the source would throw a TypeError or
 * produce NaN or Infinity, an error naming the cause.
 */
module Mca {
  import opened Wrappers
  import opened Seqs
  import opened Matrix
  import opened SvdFix
  import opened Categories
  import opened Indicator
  import opened Normalize
  import opened Eigen

  /** MCAOptions with every field optional; an absent options object is `Options(None, None, None)`. */
  datatype Options = Options(correction: Option<bool>, epsilon: Option<real>, tolerance: Option<real>)

  datatype McaOutput = McaOutput(factorScores: Mat, explainedVariance: seq<real>)

  /**
   * NoObservations: no rows, so reading `A[0].length` throws. ZeroTotalCount: every variable of every
   * row holds a value outside its categories, so the scale 1/totalCount is Infinity and Z fills with
   * NaN. CorrectionUndefined: one variable and a singular value of at least 1, so K/(K-1) is Infinity.
   * ZeroInertia: every eigenvalue is 0, so the explained variance is 0/0.
   */
  datatype McaError = NoObservations | ZeroTotalCount | CorrectionUndefined | ZeroInertia

  /** What is known of svd-js `SVD`: for a matrix at least as tall as wide, the shape of its output. */
  ghost predicate SvdShaped(svd: (Mat, real) -> Factors)
  {
    forall B: Mat, e: real :: Rectangular(B) && |B[0]| <= |B| ==> PrimitiveShape(B, svd(B, e))
  }

  /** u is m×k and v is n×k for the k = |q| singular values of an m×n matrix. */
  predicate FactorShape(A: Mat, f: Factors)
    requires Rectangular(A)
  {
    IsMatrix(f.u, |A|, |f.q|) && IsMatrix(f.v, |A[0]|, |f.q|)
  }

  /** A = u·diag(q)·vᵀ exactly, in the svd-js reading of the factors. */
  ghost predicate Factorises(A: Mat, f: Factors)
  {
    Rectangular(A) && FactorShape(A, f) &&
    forall i, j :: 0 <= i < |A| && 0 <= j < |A[0]| ==> A[i][j] == Sum(PrimitiveTerms(f, i, j))
  }

  /** reallyDoTheSVD as written: the wide branch hands back vᵀ and uᵀ of the transpose. */
  function ReallyDoTheSvdAsWritten(A: Mat, epsilon: real, svd: (Mat, real) -> Factors): (r: Factors)
    requires Rectangular(A)
    requires PrimitiveShape(SvdArg(A), svd(SvdArg(A), epsilon))
    ensures r.q == svd(SvdArg(A), epsilon).q
    ensures IsMatrix(r.u, |A|, |r.q|)
    ensures |A[0]| > |A| ==> IsMatrix(r.v, |A|, |A[0]|)
  {
    if |A[0]| <= |A| then svd(A, epsilon)
    else
      var f := svd(Transposed(A), epsilon);
      Factors(Transposed(f.v), f.q, Transposed(f.u))
  }

  /**
   * reallyDoTheSVD with the wide branch corrected: the factorisation Aᵀ = u·diag(q)·vᵀ of the
   * transpose gives A = v·diag(q)·uᵀ, so the left factor of A is v and the right one u.
   */
  function ReallyDoTheSvd(A: Mat, epsilon: real, svd: (Mat, real) -> Factors): (r: Factors)
    requires Rectangular(A)
    requires PrimitiveShape(SvdArg(A), svd(SvdArg(A), epsilon))
    ensures r.q == svd(SvdArg(A), epsilon).q
    ensures |r.q| == if |A[0]| <= |A| then |A[0]| else |A|
    ensures FactorShape(A, r)
  {
    if |A[0]| <= |A| then svd(A, epsilon)
    else
      var f := svd(Transposed(A), epsilon);
      Factors(f.v, f.q, f.u)
  }

  /** Whenever the primitive factors its argument exactly, reallyDoTheSVD factors A exactly. */
  lemma ReallyDoTheSvdFactorises(A: Mat, epsilon: real, svd: (Mat, real) -> Factors)
    requires Rectangular(A)
    requires PrimitiveExact(SvdArg(A), svd(SvdArg(A), epsilon))
    ensures Factorises(A, ReallyDoTheSvd(A, epsilon, svd))
  {
    var r := ReallyDoTheSvd(A, epsilon, svd);
    if |A[0]| > |A| {
      var B := Transposed(A);
      var f := svd(B, epsilon);
      forall i, j | 0 <= i < |A| && 0 <= j < |A[0]| ensures A[i][j] == Sum(PrimitiveTerms(r, i, j)) {
        assert B[j][i] == A[i][j];
        forall k | 0 <= k < |r.q| ensures PrimitiveTerms(r, i, j)[k] == PrimitiveTerms(f, j, i)[k] {
          assert f.v[i][k] * f.q[k] * f.u[j][k] == f.u[j][k] * f.q[k] * f.v[i][k];
        }
        assert PrimitiveTerms(r, i, j) == PrimitiveTerms(f, j, i);
      }
    }
  }

  /**
   * A 2×3 matrix and an exact factorisation of its transpose with distinct singular values 2 and 1:
   * the corrected wide branch factors A, while the branch as written returns a right factor of the
   * wrong shape and a left factor whose column 0 is (0.6, -0.8) where the left singular vector of
   * singular value 2 is (0.6, 0.8). No choice of sign turns one column into the other.
   */
  lemma ReallyDoTheSvdAsWrittenMisfactors()
    ensures var A: Mat := [[1.2, -0.8, 0.0], [1.6, 0.6, 0.0]];
            var svd := (B: Mat, e: real) => Factors([[1.0, 0.0], [0.0, 1.0], [0.0, 0.0]], [2.0, 1.0], [[0.6, -0.8], [0.8, 0.6]]);
            var w := ReallyDoTheSvdAsWritten(A, 0.0, svd);
            var r := ReallyDoTheSvd(A, 0.0, svd);
            PrimitiveExact(Transposed(A), svd(Transposed(A), 0.0)) &&
            Factorises(A, r) && !Factorises(A, w) &&
            w.u[0][0] == r.u[0][0] != 0.0 && w.u[1][0] == -r.u[1][0] != 0.0
  {
    var A: Mat := [[1.2, -0.8, 0.0], [1.6, 0.6, 0.0]];
    var svd := (B: Mat, e: real) => Factors([[1.0, 0.0], [0.0, 1.0], [0.0, 0.0]], [2.0, 1.0], [[0.6, -0.8], [0.8, 0.6]]);
    var B := Transposed(A);
    assert |B| == 3 && forall j :: 0 <= j < 3 ==> |B[j]| == 2 && B[j][0] == A[0][j] && B[j][1] == A[1][j];
    assert B[0] == [1.2, 1.6] && B[1] == [-0.8, 0.6] && B[2] == [0.0, 0.0];
    assert B == [[1.2, 1.6], [-0.8, 0.6], [0.0, 0.0]];
    var f := svd(B, 0.0);
    forall j, i | 0 <= j < 3 && 0 <= i < 2 ensures B[j][i] == Sum(PrimitiveTerms(f, j, i)) {
      assert PrimitiveTerms(f, j, i) == [f.u[j][0] * 2.0 * f.v[i][0], f.u[j][1] * 1.0 * f.v[i][1]];
      SumPair(f.u[j][0] * 2.0 * f.v[i][0], f.u[j][1] * 1.0 * f.v[i][1]);
    }
    assert SvdArg(A) == B;
    ReallyDoTheSvdFactorises(A, 0.0, svd);
    var w := ReallyDoTheSvdAsWritten(A, 0.0, svd);
    var r := ReallyDoTheSvd(A, 0.0, svd);
    assert |w.v| == 2 != |A[0]|;
    assert w.u[0][0] == 0.6 && w.u[1][0] == -0.8;
    assert r.u[0][0] == 0.6 && r.u[1][0] == 0.8;
  }

  /** Z scaled by 1/totalCount; with no indicator columns there is nothing to scale. */
  function ScaledIndicator<V(==)>(rows: seq<map<string, V>>, keys: seq<string>, cats: seq<seq<V>>): (Z: Mat)
    requires WellFormed(keys, cats)
    ensures IsMatrix(Z, |rows|, Width(cats))
  {
    var T := TotalCount(rows, keys, cats);
    var M := IndicatorMatrix(rows, keys, cats);
    var Z := Scaled(M, if T == 0 then 0.0 else 1.0 / T as real);
    assert forall i :: 0 <= i < |rows| ==> |Z[i]| == |M[i]| == Width(cats);
    Z
  }

  /**
   * What MCA does once the standardised residual R and the row marginals D_r are known: factor R,
   * turn the singular values into eigenvalues, count the rank and the inertia, and compute the
   * explained variance and the factor scores. Only the correction and the inertia can fail here.
   */
  function Analysis(R: Mat, Dr: seq<real>, K: nat, options: Options,
                    svd: (Mat, real) -> Factors, sqrt: real -> real): (r: Result<McaOutput, McaError>)
    requires SvdShaped(svd) && Rectangular(R) && |Dr| == |R|
    ensures r.Err? ==> r.error == CorrectionUndefined || r.error == ZeroInertia
    ensures r == Err(CorrectionUndefined) ==> options.correction == Some(true) && K == 1
  {
    var epsilon := if options.epsilon.Some? then options.epsilon.value else 0.0;
    var f := ReallyDoTheSvd(R, epsilon, svd);
    var correction := options.correction == Some(true);
    if correction && !CorrectionDefined(f.q, K) then Err(CorrectionUndefined)
    else
      var E := Eigenvalues(f.q, correction, K);
      var rank := Rank(E, EffectiveTolerance(options.tolerance));
      var L := E[..rank];
      var inertia := Sum(E);
      if |L| > 0 && inertia == 0.0 then Err(ZeroInertia)
      else Ok(McaOutput(FactorScores(Dr, Projection(L, correction, sqrt), f.u), ExplainedVariance(L, inertia)))
  }

  /** The whole of `MCA`, as a function of its inputs and of the two external functions. */
  function McaSpec<V(==)>(rows: seq<map<string, V>>, schema: seq<(string, seq<V>)>, options: Options,
                          svd: (Mat, real) -> Factors, sqrt: real -> real): (r: Result<McaOutput, McaError>)
    requires SvdShaped(svd) && RootLike(sqrt)
    ensures r == Err(NoObservations) <==> |rows| == 0
    ensures r == Err(ZeroTotalCount) <==>
      |rows| > 0 && Width(KeptCategories(schema)) > 0 && TotalCount(rows, KeptKeys(schema), KeptCategories(schema)) == 0
    ensures r == Err(CorrectionUndefined) ==> options.correction == Some(true) && |KeptKeys(schema)| == 1
  {
    var keys, cats := KeptKeys(schema), KeptCategories(schema);
    KeptVariables(schema);
    var n := Width(cats);
    var T := TotalCount(rows, keys, cats);
    if |rows| == 0 then Err(NoObservations)
    else if T == 0 && n > 0 then Err(ZeroTotalCount)
    else
      var Z := ScaledIndicator(rows, keys, cats);
      Analysis(ResidualMatrix(Z, n, sqrt), RowSums(Z), |keys|, options, svd, sqrt)
  }

  /** A sum of non-negative terms is 0 only when every term is 0. */
  lemma SumNonNegative(E: seq<real>)
    requires forall i :: 0 <= i < |E| ==> E[i] >= 0.0
    ensures Sum(E) >= 0.0
    ensures Sum(E) == 0.0 ==> forall i :: 0 <= i < |E| ==> E[i] == 0.0
  {
    assert E[..|E|] == E;
    SumPrefixBound(E, |E|);
    forall i | 0 <= i < |E| ensures Sum(E) == 0.0 ==> E[i] == 0.0 {
      TermBelowSum(E, i);
    }
  }

  /**
   * A result of the analysis of an m×n residual has one row of factor scores per row of R and one
   * column per explained variance; there are at most min(m, n) of these, at least one when n > 0,
   * each lies in [0, 1] and together they add up to at most 1.
   */
  lemma AnalysisShape(R: Mat, Dr: seq<real>, K: nat, options: Options,
                      svd: (Mat, real) -> Factors, sqrt: real -> real)
    requires SvdShaped(svd) && Rectangular(R) && |Dr| == |R|
    ensures var r := Analysis(R, Dr, K, options, svd, sqrt);
            r.Ok? ==>
              var ev := r.value.explainedVariance;
              IsMatrix(r.value.factorScores, |R|, |ev|) &&
              |ev| <= |R| && |ev| <= |R[0]| && (|R[0]| > 0 ==> |ev| > 0) &&
              (forall j :: 0 <= j < |ev| ==> 0.0 <= ev[j] <= 1.0) && Sum(ev) <= 1.0
  {
    var r := Analysis(R, Dr, K, options, svd, sqrt);
    if r.Ok? {
      var epsilon := if options.epsilon.Some? then options.epsilon.value else 0.0;
      var f := ReallyDoTheSvd(R, epsilon, svd);
      var correction := options.correction == Some(true);
      var E := Eigenvalues(f.q, correction, K);
      var rank := Rank(E, EffectiveTolerance(options.tolerance));
      if rank > 0 {
        SumNonNegative(E);
        ExplainedVarianceBounds(E, rank);
      }
    }
  }

  /**
   * A result has one row of factor scores per observation and one column per retained eigenvalue;
   * there are at most as many as observations and as indicator columns, at least one when there is
   * an indicator column; each explained variance lies in [0, 1] and together they are at most 1.
   */
  lemma McaOutputShape<V>(rows: seq<map<string, V>>, schema: seq<(string, seq<V>)>, options: Options,
                              svd: (Mat, real) -> Factors, sqrt: real -> real)
    requires SvdShaped(svd) && RootLike(sqrt)
    ensures var r := McaSpec(rows, schema, options, svd, sqrt);
            r.Ok? ==>
              var ev := r.value.explainedVariance;
              IsMatrix(r.value.factorScores, |rows|, |ev|) &&
              |ev| <= |rows| && |ev| <= Width(KeptCategories(schema)) &&
              (Width(KeptCategories(schema)) > 0 ==> |ev| > 0) &&
              (forall j :: 0 <= j < |ev| ==> 0.0 <= ev[j] <= 1.0) && Sum(ev) <= 1.0
  {
    var keys, cats := KeptKeys(schema), KeptCategories(schema);
    KeptVariables(schema);
    var n := Width(cats);
    if |rows| > 0 && !(TotalCount(rows, keys, cats) == 0 && n > 0) {
      var Z := ScaledIndicator(rows, keys, cats);
      AnalysisShape(ResidualMatrix(Z, n, sqrt), RowSums(Z), |keys|, options, svd, sqrt);
    }
  }

  /** The analysis as the source runs it: the rank and inertia in one loop over E. */
  method Analyse(R: Mat, Dr: seq<real>, K: nat, options: Options,
                 svd: (Mat, real) -> Factors, sqrt: real -> real) returns (r: Result<McaOutput, McaError>)
    requires SvdShaped(svd) && Rectangular(R) && |Dr| == |R|
    ensures r == Analysis(R, Dr, K, options, svd, sqrt)
  {
    // `options?.epsilon || 0`
    var epsilon := if options.epsilon.Some? then options.epsilon.value else 0.0;
    var f := ReallyDoTheSvd(R, epsilon, svd);
    var correction := options.correction == Some(true);
    if correction && !CorrectionDefined(f.q, K) {
      return Err(CorrectionUndefined);
    }
    var E := Eigenvalues(f.q, correction, K);
    var inertia, rank := RankAndInertia(E, EffectiveTolerance(options.tolerance));
    var L := E[..rank];
    if |L| > 0 && inertia == 0.0 {
      return Err(ZeroInertia);
    }
    var explainedVariance := ExplainedVariance(L, inertia);
    var S := Projection(L, correction, sqrt);
    var factorScores := FactorScores(Dr, S, f.u);
    r := Ok(McaOutput(factorScores, explainedVariance));
  }

  /**
   * MCA: the categories unpacked and the indicator matrix built by their loops, Z scaled and
   * overwritten in place, then the analysis.
   */
  method Mca<V(==)>(rows: seq<map<string, V>>, schema: seq<(string, seq<V>)>, options: Options,
                    svd: (Mat, real) -> Factors, sqrt: real -> real) returns (r: Result<McaOutput, McaError>)
    requires SvdShaped(svd) && RootLike(sqrt)
    ensures r == McaSpec(rows, schema, options, svd, sqrt)
  {
    var columnKeys, columnCategories, columnDimension := UnpackCategories(schema);
    KeptVariables(schema);
    if |rows| == 0 {
      return Err(NoObservations);
    }
    var Z, totalCount := BuildIndicator(rows, columnKeys, columnCategories);
    if totalCount == 0 && columnDimension > 0 {
      return Err(ZeroTotalCount);
    }
    var R, Dr := Standardise(Z, columnDimension, totalCount, sqrt);
    assert Scaled(Z, if totalCount == 0 then 0.0 else 1.0 / totalCount as real)
        == ScaledIndicator(rows, columnKeys, columnCategories);
    r := Analyse(R, Dr, |columnKeys|, options, svd, sqrt);
  }
}
