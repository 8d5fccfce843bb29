/**
 * The bookkeeping after the SVD in mca.ts (lines 119-167): the eigenvalues E from the singular values
 * (with or without the Benzécri correction), the rank and the total inertia, the explained variance
 * of the retained eigenvalues and the factor scores.
 */
module Eigen {
  import opened Wrappers
  import opened Seqs
  import opened Matrix

  /**
   * The Benzécri correction of one singular value, for K kept variables. 1/0 is +Infinity in the
   * source, which every finite value is below, so with K = 0 every value is corrected to 0. With
   * K = 1 and lambda >= 1 the source computes Infinity·0 or Infinity; that case is excluded here and
   * reported as an error by the pipeline.
   */
  function CorrectedEigenvalue(lambda: real, K: nat): (e: real)
    requires K == 1 ==> lambda < 1.0
    ensures e >= 0.0
    ensures e == 0.0 <==> K == 0 || lambda <= 1.0 / K as real
  {
    if K == 0 || lambda < 1.0 / K as real then 0.0
    else
      var t := K as real / (K - 1) as real * (lambda - 1.0 / K as real);
      assert t >= 0.0 && (t == 0.0 <==> lambda == 1.0 / K as real) by {
        assert K as real / (K - 1) as real > 0.0;
      }
      t * t
  }

  /** The correction is defined for every singular value: none reaches 1 when there is one variable. */
  predicate CorrectionDefined(s: seq<real>, K: nat)
  {
    K == 1 ==> forall i :: 0 <= i < |s| ==> s[i] < 1.0
  }

  /** E: one eigenvalue per singular value, corrected or squared, never negative. */
  function Eigenvalues(s: seq<real>, correction: bool, K: nat): (E: seq<real>)
    requires correction ==> CorrectionDefined(s, K)
    ensures |E| == |s|
    ensures forall i :: 0 <= i < |s| ==> E[i] >= 0.0
    ensures correction ==> forall i :: 0 <= i < |s| ==> (E[i] == 0.0 <==> K == 0 || s[i] <= 1.0 / K as real)
  {
    seq(|s|, i requires 0 <= i < |s| => if correction then CorrectedEigenvalue(s[i], K) else s[i] * s[i])
  }

  /** The number of eigenvalues above the tolerance, over all of E. */
  function CountAbove(E: seq<real>, tolerance: real): (c: nat)
    ensures c <= |E|
    ensures c == 0 <==> forall i :: 0 <= i < |E| ==> E[i] <= tolerance
    ensures c == |E| <==> forall i :: 0 <= i < |E| ==> E[i] > tolerance
  {
    if |E| == 0 then 0
    else
      var n := |E| - 1;
      var c := CountAbove(E[..n], tolerance);
      assert forall i :: 0 <= i < n ==> E[..n][i] == E[i];
      c + if E[n] > tolerance then 1 else 0
  }

  /** The rank: the count above the tolerance, or all of E when that count is 0. */
  function Rank(E: seq<real>, tolerance: real): (rank: nat)
    ensures rank <= |E|
    ensures |E| > 0 ==> rank > 0
    ensures rank == |E| <==>
      (forall i :: 0 <= i < |E| ==> E[i] > tolerance) || (forall i :: 0 <= i < |E| ==> E[i] <= tolerance)
    ensures (exists i :: 0 <= i < |E| && E[i] > tolerance) ==> rank == CountAbove(E, tolerance)
  {
    var c := CountAbove(E, tolerance);
    if c == 0 then |E| else c
  }

  /** The rank and inertia loop: inertia is the sum of E and rank is counted over all of E. */
  method RankAndInertia(E: seq<real>, tolerance: real) returns (inertia: real, rank: nat)
    ensures inertia == Sum(E)
    ensures rank == Rank(E, tolerance)
  {
    inertia, rank := 0.0, 0;
    var i := 0;
    while i < |E|
      invariant 0 <= i <= |E|
      invariant inertia == Sum(E[..i])
      invariant rank == CountAbove(E[..i], tolerance)
    {
      assert E[..i + 1][..i] == E[..i];
      inertia := inertia + E[i];
      if E[i] > tolerance {
        rank := rank + 1;
      }
      i := i + 1;
    }
    assert E[..i] == E;
    if rank == 0 {
      rank := |E|;
    }
  }

  /** `options?.tolerance || 1e-4`: an absent or zero tolerance becomes 1e-4, so it is never 0. */
  function EffectiveTolerance(tolerance: Option<real>): (t: real)
    ensures t != 0.0
    ensures tolerance.Some? && tolerance.value != 0.0 ==> t == tolerance.value
    ensures tolerance.None? || tolerance.value == 0.0 ==> t == 0.0001
  {
    if tolerance.Some? && tolerance.value != 0.0 then tolerance.value else 0.0001
  }

  /** Each retained eigenvalue divided by the total inertia. */
  function ExplainedVariance(L: seq<real>, inertia: real): (ev: seq<real>)
    requires |L| > 0 ==> inertia != 0.0
    ensures |ev| == |L|
    ensures forall i :: 0 <= i < |L| ==> ev[i] * inertia == L[i]
  {
    seq(|L|, i requires 0 <= i < |L| => L[i] / inertia)
  }

  /** A non-negative term is at most the sum. */
  lemma TermBelowSum(E: seq<real>, i: nat)
    requires i < |E| && forall k :: 0 <= k < |E| ==> E[k] >= 0.0
    ensures E[i] <= Sum(E)
  {
    assert E[..i + 1][..i] == E[..i];
    SumPrefixBound(E, i);
    SumPrefixBound(E, i + 1);
  }

  lemma DivIsTimesReciprocal(x: real, t: real)
    requires t != 0.0
    ensures x / t == x * (1.0 / t)
  {
  }

  lemma VarianceAsScale(L: seq<real>, t: real)
    requires t != 0.0
    ensures ExplainedVariance(L, t) == Scale(L, 1.0 / t)
  {
    forall i | 0 <= i < |L| ensures ExplainedVariance(L, t)[i] == Scale(L, 1.0 / t)[i] {
      DivIsTimesReciprocal(L[i], t);
    }
  }

  lemma RatioInUnit(x: real, t: real)
    requires 0.0 <= x <= t && t > 0.0
    ensures 0.0 <= x / t <= 1.0
  {
  }

  /** The explained variances add up to the retained share of the inertia. */
  lemma ExplainedVarianceSum(L: seq<real>, t: real)
    requires t != 0.0
    ensures Sum(ExplainedVariance(L, t)) == Sum(L) / t
  {
    VarianceAsScale(L, t);
    SumScale(L, 1.0 / t);
    DivIsTimesReciprocal(Sum(L), t);
  }

  /**
   * With non-negative eigenvalues and positive inertia, each explained variance lies in [0, 1] and
   * they add up to at most 1, to exactly 1 when every eigenvalue is retained.
   */
  lemma ExplainedVarianceBounds(E: seq<real>, rank: nat)
    requires rank <= |E| && Sum(E) > 0.0
    requires forall i :: 0 <= i < |E| ==> E[i] >= 0.0
    ensures var ev := ExplainedVariance(E[..rank], Sum(E));
            (forall i :: 0 <= i < rank ==> 0.0 <= ev[i] <= 1.0) &&
            Sum(ev) <= 1.0 && (rank == |E| ==> Sum(ev) == 1.0)
  {
    var L := E[..rank];
    var t := Sum(E);
    var ev := ExplainedVariance(L, t);
    forall i | 0 <= i < rank ensures 0.0 <= ev[i] <= 1.0 {
      TermBelowSum(E, i);
      RatioInUnit(L[i], t);
    }
    ExplainedVarianceSum(L, t);
    SumPrefixBound(E, rank);
    RatioInUnit(Sum(L), t);
    if rank == |E| {
      assert L == E;
      DivIsTimesReciprocal(t, t);
      assert Sum(L) / t == t * (1.0 / t) == 1.0;
    }
  }

  /**
   * S: the retained eigenvalues themselves, or, with correction, their negated square roots. Given a
   * `sqrt` that maps 0 to 0 and positives to positives, a corrected coefficient is never positive and
   * is 0 exactly for a 0 eigenvalue.
   */
  function Projection(L: seq<real>, correction: bool, sqrt: real -> real): (S: seq<real>)
    ensures |S| == |L|
    ensures !correction ==> S == L
    ensures correction ==> forall j :: 0 <= j < |L| ==> S[j] == -sqrt(L[j])
    ensures correction && RootLike(sqrt) ==>
      forall j :: 0 <= j < |L| && L[j] >= 0.0 ==> S[j] <= 0.0 && (S[j] == 0.0 <==> L[j] == 0.0)
  {
    if correction then seq(|L|, j requires 0 <= j < |L| => -sqrt(L[j])) else L
  }

  /** factorScores: one row per observation, one column per retained eigenvalue, D_r[i]·S[j]·P[i][j]. */
  function FactorScores(Dr: seq<real>, S: seq<real>, P: Mat): (F: Mat)
    requires |P| == |Dr| && forall i :: 0 <= i < |P| ==> |S| <= |P[i]|
    ensures IsMatrix(F, |Dr|, |S|)
    ensures forall i, j :: 0 <= i < |Dr| && 0 <= j < |S| ==> (F[i][j] == 0.0 <==> Dr[i] == 0.0 || S[j] == 0.0 || P[i][j] == 0.0)
  {
    seq(|Dr|, i requires 0 <= i < |Dr| => seq(|S|, j requires 0 <= j < |S| => Dr[i] * S[j] * P[i][j]))
  }
}
