/**
 * The defensive wrapper around the external SVD primitive (svd-fix.ts): orientation switch for wide
 * matrices, reordering of the singular values by decreasing magnitude together with their vectors,
 * and the optional reconstruction check.
 *
 * The primitive itself (svd-js) is not modelled: it is a parameter `svd`, and all that is known of it
 * is the shape of what it returns (PrimitiveShape). Following the svd-js convention, for B of size
 * m×n with m >= n it returns u (m×n), q (n) and v (n×n) with B ≈ u·diag(q)·vᵀ.
 */
module SvdFix {
  import opened Wrappers
  import opened Seqs
  import opened Matrix

  /** What the primitive and runSVD return: `{u, q, v}`. */
  datatype Factors = Factors(u: Mat, q: seq<real>, v: Mat)

  /** What fixedSVD returns: `{P, s, Q}`, read as A ≈ P·diag(s)·Q (the rows of Q are the right vectors). */
  datatype Decomposition = Decomposition(P: Mat, s: seq<real>, Q: Mat)

  /** The entry the reconstruction check found off, with the expected and rebuilt values. */
  datatype CheckFailure = CheckFailure(i: nat, j: nat, expected: real, actual: real)

  /** The shape of the primitive's output for an input B with at least as many rows as columns. */
  predicate PrimitiveShape(B: Mat, f: Factors)
  {
    Rectangular(B) && |B[0]| <= |B| &&
    IsMatrix(f.u, |B|, |B[0]|) && |f.q| == |B[0]| && IsMatrix(f.v, |B[0]|, |B[0]|)
  }

  /** The terms of entry (i, j) of u·diag(q)·vᵀ, the primitive's own reading of its output. */
  function PrimitiveTerms(f: Factors, i: nat, j: nat): seq<real>
    requires i < |f.u| && |f.q| <= |f.u[i]| && j < |f.v| && |f.q| <= |f.v[j]|
  {
    seq(|f.q|, k requires 0 <= k < |f.q| => f.u[i][k] * f.q[k] * f.v[j][k])
  }

  /** The primitive returned an exact factorisation of B. */
  ghost predicate PrimitiveExact(B: Mat, f: Factors)
  {
    PrimitiveShape(B, f) &&
    forall i, j :: 0 <= i < |B| && 0 <= j < |B[0]| ==> B[i][j] == Sum(PrimitiveTerms(f, i, j))
  }

  /** The terms of entry (i, j) of P·diag(s)·Q, as the triple loop of checkSVD adds them up. */
  function ReconTerms(P: Mat, s: seq<real>, Q: Mat, i: nat, j: nat): seq<real>
    requires i < |P| && |s| <= |P[i]| && |s| <= |Q| && forall k :: 0 <= k < |s| ==> j < |Q[k]|
  {
    seq(|s|, k requires 0 <= k < |s| => P[i][k] * s[k] * Q[k][j])
  }

  /** Entry (i, j) of P·diag(s)·Q. */
  function ReconEntry(P: Mat, s: seq<real>, Q: Mat, i: nat, j: nat): real
    requires i < |P| && |s| <= |P[i]| && |s| <= |Q| && forall k :: 0 <= k < |s| ==> j < |Q[k]|
  {
    Sum(ReconTerms(P, s, Q, i, j))
  }

  /** P is m×k, s has k entries and Q is k×n, with m >= 1 and k >= 1. */
  predicate Conformable(P: Mat, s: seq<real>, Q: Mat, m: nat, n: nat)
  {
    m > 0 && |s| > 0 && IsMatrix(P, m, |s|) && IsMatrix(Q, |s|, n)
  }

  /** Every entry of P·diag(s)·Q is within `tolerance` of the corresponding entry of A. */
  predicate ReconstructsWithin(A: Mat, d: Decomposition, tolerance: real)
    requires Rectangular(A) && Conformable(d.P, d.s, d.Q, |A|, |A[0]|)
  {
    forall i, j :: 0 <= i < |A| && 0 <= j < |A[0]| ==>
      Abs(A[i][j] - ReconEntry(d.P, d.s, d.Q, i, j)) <= tolerance
  }

  /** The matrix handed to the primitive: A itself when it is not wider than tall, its transpose otherwise. */
  function SvdArg(A: Mat): (B: Mat)
    requires Rectangular(A)
    ensures Rectangular(B) && |B[0]| <= |B|
    ensures B == A <==> |A[0]| <= |A|
  {
    if |A[0]| <= |A| then A
    else
      var t := Transposed(A);
      assert |t| != |A|;
      t
  }

  /** runSVD as written. */
  function RunSvdAsWritten(A: Mat, epsilon: real, svd: (Mat, real) -> Factors): (r: Factors)
    requires Rectangular(A)
    requires PrimitiveShape(SvdArg(A), svd(SvdArg(A), epsilon))
    ensures r.q == svd(SvdArg(A), epsilon).q
    ensures |A[0]| <= |A| ==> IsMatrix(r.u, |A[0]|, |A|) && r.v == svd(A, epsilon).v
    ensures |A[0]| > |A| ==> IsMatrix(r.u, |A|, |A|) && IsMatrix(r.v, |A|, |A[0]|)
  {
    if |A[0]| <= |A| then
      var f := svd(A, epsilon);
      Factors(Transposed(f.u), f.q, f.v)
    else
      var f := svd(Transposed(A), epsilon);
      Factors(f.v, f.q, Transposed(f.u))
  }

  /**
   * A 2×2 rotation and an exact factorisation of it (u = A, q = [1, 1], v = I): the tall branch of
   * runSVD as written turns it into a P·diag(s)·Q that rebuilds the transpose of A, not A.
   */
  lemma RunSvdAsWrittenMisreconstructs()
    ensures var A: Mat := [[0.0, -1.0], [1.0, 0.0]];
            var svd := (B: Mat, e: real) => Factors(A, [1.0, 1.0], [[1.0, 0.0], [0.0, 1.0]]);
            var r := RunSvdAsWritten(A, 0.0, svd);
            PrimitiveExact(A, svd(A, 0.0)) &&
            ReconEntry(r.u, r.q, r.v, 0, 1) == 1.0 && A[0][1] == -1.0
  {
    var A: Mat := [[0.0, -1.0], [1.0, 0.0]];
    var f := Factors(A, [1.0, 1.0], [[1.0, 0.0], [0.0, 1.0]]);
    forall i, j | 0 <= i < 2 && 0 <= j < 2 ensures A[i][j] == Sum(PrimitiveTerms(f, i, j)) {
      assert PrimitiveTerms(f, i, j) == [A[i][0] * f.v[j][0], A[i][1] * f.v[j][1]];
      SumPair(A[i][0] * f.v[j][0], A[i][1] * f.v[j][1]);
    }
    var P := Transposed(A);
    assert P[0][0] == 0.0 && P[0][1] == 1.0;
    assert ReconTerms(P, f.q, f.v, 0, 1) == [0.0, 1.0];
    SumPair(0.0, 1.0);
  }

  /** runSVD with the tall branch corrected to hand back u and vᵀ (it returned uᵀ and v). */
  function RunSvd(A: Mat, epsilon: real, svd: (Mat, real) -> Factors): (r: Factors)
    requires Rectangular(A) && |A[0]| > 0
    requires PrimitiveShape(SvdArg(A), svd(SvdArg(A), epsilon))
    ensures r.q == svd(SvdArg(A), epsilon).q
    ensures |r.q| == if |A[0]| <= |A| then |A[0]| else |A|
    ensures Conformable(r.u, r.q, r.v, |A|, |A[0]|)
  {
    if |A[0]| <= |A| then
      var f := svd(A, epsilon);
      Factors(f.u, f.q, Transposed(f.v))
    else
      var f := svd(Transposed(A), epsilon);
      Factors(f.v, f.q, Transposed(f.u))
  }

  /** Whatever the orientation, an exact factorisation from the primitive makes P·diag(s)·Q rebuild A. */
  lemma RunSvdReconstructs(A: Mat, epsilon: real, svd: (Mat, real) -> Factors)
    requires Rectangular(A) && |A[0]| > 0
    requires PrimitiveExact(SvdArg(A), svd(SvdArg(A), epsilon))
    ensures var r := RunSvd(A, epsilon, svd);
            forall i, j :: 0 <= i < |A| && 0 <= j < |A[0]| ==> ReconEntry(r.u, r.q, r.v, i, j) == A[i][j]
  {
    var r := RunSvd(A, epsilon, svd);
    var f := svd(SvdArg(A), epsilon);
    forall i, j | 0 <= i < |A| && 0 <= j < |A[0]|
      ensures ReconEntry(r.u, r.q, r.v, i, j) == A[i][j]
    {
      if |A[0]| <= |A| {
        forall k | 0 <= k < |r.q|
          ensures ReconTerms(r.u, r.q, r.v, i, j)[k] == PrimitiveTerms(f, i, j)[k]
        {
          assert r.v[k][j] == f.v[j][k];
        }
        assert ReconTerms(r.u, r.q, r.v, i, j) == PrimitiveTerms(f, i, j);
      } else {
        assert SvdArg(A)[j][i] == A[i][j];
        forall k | 0 <= k < |r.q|
          ensures ReconTerms(r.u, r.q, r.v, i, j)[k] == PrimitiveTerms(f, j, i)[k]
        {
          assert r.v[k][j] == f.u[j][k];
          assert r.u[i][k] * r.q[k] * r.v[k][j] == f.u[j][k] * f.q[k] * f.v[i][k];
        }
        assert ReconTerms(r.u, r.q, r.v, i, j) == PrimitiveTerms(f, j, i);
      }
    }
  }

  /** Every adjacent pair is non-increasing in absolute value. */
  predicate SortedByAbs(x: seq<real>)
  {
    forall i :: 1 <= i < |x| ==> Abs(x[i - 1]) >= Abs(x[i])
  }

  /** isSorted: scans adjacent pairs and stops at the first one that rises in absolute value. */
  method IsSorted(x: seq<real>) returns (sorted: bool)
    ensures sorted <==> SortedByAbs(x)
  {
    var i := 1;
    while i < |x|
      invariant 1 <= i <= |x| || |x| == 0
      invariant forall i' :: 1 <= i' < i && i' < |x| ==> Abs(x[i' - 1]) >= Abs(x[i'])
    {
      if Abs(x[i - 1]) < Abs(x[i]) {
        return false;
      }
      i := i + 1;
    }
    return true;
  }

  /** permute: element i of the result is x[perm[i]], for every position of x. */
  function Permute<T>(x: seq<T>, perm: seq<nat>): seq<T>
    requires |x| <= |perm| && forall i :: 0 <= i < |x| ==> perm[i] < |x|
  {
    seq(|x|, i requires 0 <= i < |x| => x[perm[i]])
  }

  /** With a permutation of the positions, permute only rearranges x. */
  lemma PermuteRearranges<T>(x: seq<T>, perm: seq<nat>)
    requires IsIndexPermutation(perm, |x|)
    ensures |perm| == |x| && forall i :: 0 <= i < |x| ==> perm[i] < |x|
    ensures |Permute(x, perm)| == |x| && forall i :: 0 <= i < |x| ==> Permute(x, perm)[i] == x[perm[i]]
    ensures multiset(Permute(x, perm)) == multiset(x)
  {
    IndexPermutationBounds(perm, |x|);
    PickPermutation(x, perm);
    assert Permute(x, perm) == Pick(x, perm);
  }

  /** Index sequence `ys` lists positions of q in non-increasing order of absolute value. */
  ghost predicate IndicesSortedByAbs(q: seq<real>, ys: seq<nat>)
    requires forall k :: 0 <= k < |ys| ==> ys[k] < |q|
  {
    forall a, b :: 0 <= a < b < |ys| ==> Abs(q[ys[a]]) >= Abs(q[ys[b]])
  }

  /** Inserts position i in front of the first listed position whose value is not larger in magnitude. */
  function InsertByAbs(q: seq<real>, i: nat, ys: seq<nat>): (r: seq<nat>)
    requires i < |q| && forall k :: 0 <= k < |ys| ==> ys[k] < |q|
    ensures multiset(r) == multiset(ys) + multiset{i}
    ensures forall k :: 0 <= k < |r| ==> r[k] < |q|
  {
    if |ys| == 0 || Abs(q[i]) >= Abs(q[ys[0]]) then [i] + ys
    else
      var rest := InsertByAbs(q, i, ys[1..]);
      assert ys == [ys[0]] + ys[1..];
      [ys[0]] + rest
  }

  /**
   * The positions `idx` ordered by decreasing magnitude of their values, ties kept in their original
   * order: the same order as sorting the pairs [q[i], i] with the comparator |b[0]| - |a[0]|.
   */
  function SortByAbs(q: seq<real>, idx: seq<nat>): (r: seq<nat>)
    requires forall k :: 0 <= k < |idx| ==> idx[k] < |q|
    ensures multiset(r) == multiset(idx)
    ensures forall k :: 0 <= k < |r| ==> r[k] < |q|
  {
    if |idx| == 0 then []
    else
      assert idx == [idx[0]] + idx[1..];
      InsertByAbs(q, idx[0], SortByAbs(q, idx[1..]))
  }

  lemma {:induction false} InsertByAbsSorted(q: seq<real>, i: nat, ys: seq<nat>)
    requires i < |q| && forall k :: 0 <= k < |ys| ==> ys[k] < |q|
    requires IndicesSortedByAbs(q, ys)
    ensures IndicesSortedByAbs(q, InsertByAbs(q, i, ys))
    decreases |ys|
  {
    var r := InsertByAbs(q, i, ys);
    if |ys| == 0 || Abs(q[i]) >= Abs(q[ys[0]]) {
      assert r == [i] + ys;
    } else {
      var rest := InsertByAbs(q, i, ys[1..]);
      InsertByAbsSorted(q, i, ys[1..]);
      assert r == [ys[0]] + rest;
      forall b | 0 <= b < |rest| ensures Abs(q[ys[0]]) >= Abs(q[rest[b]]) {
        assert rest[b] in multiset(rest);
        assert rest[b] == i || rest[b] in multiset(ys[1..]);
        if rest[b] != i {
          var c :| 0 <= c < |ys[1..]| && ys[1..][c] == rest[b];
          assert ys[c + 1] == rest[b];
        }
      }
    }
  }

  lemma {:induction false} SortByAbsSorted(q: seq<real>, idx: seq<nat>)
    requires forall k :: 0 <= k < |idx| ==> idx[k] < |q|
    ensures IndicesSortedByAbs(q, SortByAbs(q, idx))
    decreases |idx|
  {
    if |idx| > 0 {
      SortByAbsSorted(q, idx[1..]);
      InsertByAbsSorted(q, idx[0], SortByAbs(q, idx[1..]));
    }
  }

  /** The permutation fixedSVD derives from the sorted (value, position) pairs. */
  function SortOrder(q: seq<real>): (perm: seq<nat>)
    ensures |perm| == |q| && forall k :: 0 <= k < |perm| ==> perm[k] < |q|
  {
    var perm := SortByAbs(q, Range(|q|));
    assert |multiset(perm)| == |multiset(Range(|q|))|;
    perm
  }

  /** SortOrder lists every position once, and reading q through it is sorted by decreasing magnitude. */
  lemma SortOrderSorts(q: seq<real>)
    ensures IsIndexPermutation(SortOrder(q), |q|)
    ensures SortedByAbs(Permute(q, SortOrder(q)))
    ensures multiset(Permute(q, SortOrder(q))) == multiset(q)
  {
    var perm := SortOrder(q);
    SortByAbsSorted(q, Range(|q|));
    PermuteRearranges(q, perm);
  }

  /** The shape the reordering needs: u is m×k, q has k entries, v is k×n. */
  predicate FactorsShaped(f: Factors, m: nat, n: nat)
  {
    Conformable(f.u, f.q, f.v, m, n)
  }

  /** The reordering step of fixedSVD, as a value: nothing moves when q is already sorted. */
  function Reordered(f: Factors, m: nat, n: nat): (d: Decomposition)
    requires FactorsShaped(f, m, n)
    ensures Conformable(d.P, d.s, d.Q, m, n)
  {
    if SortedByAbs(f.q) then Decomposition(f.u, f.q, f.v)
    else
      var perm := SortOrder(f.q);
      var ut := Transposed(f.u);
      var pt := Permute(ut, perm);
      assert |pt| == |f.q| && |pt[0]| == m;
      Decomposition(Transposed(pt), Permute(f.q, perm), Permute(f.v, perm))
  }

  /** One permutation moves the singular values, the columns of P and the rows of Q together. */
  lemma ReorderedPairsVectors(f: Factors, m: nat, n: nat)
    requires FactorsShaped(f, m, n)
    ensures var d := Reordered(f, m, n);
            var perm := if SortedByAbs(f.q) then Range(|f.q|) else SortOrder(f.q);
            IsIndexPermutation(perm, |f.q|) &&
            SortedByAbs(d.s) && multiset(d.s) == multiset(f.q) &&
            (forall k :: 0 <= k < |f.q| ==> d.s[k] == f.q[perm[k]] && d.Q[k] == f.v[perm[k]]) &&
            (forall i, k :: 0 <= i < m && 0 <= k < |f.q| ==> d.P[i][k] == f.u[i][perm[k]])
  {
    if !SortedByAbs(f.q) {
      SortOrderSorts(f.q);
    }
  }

  /** Reading the terms of P·diag(s)·Q through a permutation of k does not change their sum. */
  lemma PermutedProduct(d: Decomposition, f: Factors, perm: seq<nat>, i: nat, j: nat)
    requires IsIndexPermutation(perm, |f.q|) && |perm| == |f.q| == |d.s|
    requires forall k :: 0 <= k < |perm| ==> perm[k] < |f.q|
    requires i < |f.u| && |f.q| <= |f.u[i]| && |f.q| <= |f.v| && forall k :: 0 <= k < |f.q| ==> j < |f.v[k]|
    requires i < |d.P| && |d.s| <= |d.P[i]| && |d.s| <= |d.Q| && forall k :: 0 <= k < |d.s| ==> j < |d.Q[k]|
    requires forall k :: 0 <= k < |perm| ==>
      d.s[k] == f.q[perm[k]] && d.Q[k] == f.v[perm[k]] && d.P[i][k] == f.u[i][perm[k]]
    ensures ReconEntry(d.P, d.s, d.Q, i, j) == ReconEntry(f.u, f.q, f.v, i, j)
  {
    var terms := ReconTerms(f.u, f.q, f.v, i, j);
    PickPermutation(terms, perm);
    forall k | 0 <= k < |perm| ensures ReconTerms(d.P, d.s, d.Q, i, j)[k] == Pick(terms, perm)[k] {
      assert d.P[i][k] * d.s[k] * d.Q[k][j] == f.u[i][perm[k]] * f.q[perm[k]] * f.v[perm[k]][j];
    }
    assert ReconTerms(d.P, d.s, d.Q, i, j) == Pick(terms, perm);
    SumMultiset(Pick(terms, perm), terms);
  }

  /** Reordering leaves P·diag(s)·Q unchanged, entry by entry. */
  lemma ReorderedKeepsProduct(f: Factors, m: nat, n: nat)
    requires FactorsShaped(f, m, n)
    ensures var d := Reordered(f, m, n);
            forall i, j :: 0 <= i < m && 0 <= j < n ==>
              ReconEntry(d.P, d.s, d.Q, i, j) == ReconEntry(f.u, f.q, f.v, i, j)
  {
    var d := Reordered(f, m, n);
    if !SortedByAbs(f.q) {
      var perm := SortOrder(f.q);
      ReorderedPairsVectors(f, m, n);
      forall i, j | 0 <= i < m && 0 <= j < n
        ensures ReconEntry(d.P, d.s, d.Q, i, j) == ReconEntry(f.u, f.q, f.v, i, j)
      {
        PermutedProduct(d, f, perm, i, j);
      }
    }
  }

  /**
   * checkSVD without the NaN scan: rebuilds P·diag(s)·Q entry by entry, then compares it with the
   * expected matrix in row-major order and reports the first entry off by more than the tolerance.
   */
  method CheckSvd(expected: Mat, P: Mat, s: seq<real>, Q: Mat, tolerance: real) returns (failure: Option<CheckFailure>)
    requires |Q| > 0 && Conformable(P, s, Q, |expected|, |Q[0]|) && IsMatrix(expected, |P|, |Q[0]|)
    ensures failure.None? <==>
      forall i, j :: 0 <= i < |P| && 0 <= j < |Q[0]| ==> Abs(expected[i][j] - ReconEntry(P, s, Q, i, j)) <= tolerance
    ensures failure.Some? ==>
      var c := failure.value;
      c.i < |P| && c.j < |Q[0]| &&
      c.expected == expected[c.i][c.j] && c.actual == ReconEntry(P, s, Q, c.i, c.j) &&
      Abs(c.expected - c.actual) > tolerance &&
      forall i, j :: 0 <= i < |P| && 0 <= j < |Q[0]| && (i < c.i || (i == c.i && j < c.j)) ==>
        Abs(expected[i][j] - ReconEntry(P, s, Q, i, j)) <= tolerance
  {
    var n := |Q[0]|;
    var actual: Mat := [];
    var i := 0;
    while i < |P|
      invariant 0 <= i <= |P|
      invariant IsMatrix(actual, i, n)
      invariant forall i', j :: 0 <= i' < i && 0 <= j < n ==> actual[i'][j] == ReconEntry(P, s, Q, i', j)
    {
      var row: seq<real> := [];
      var j := 0;
      while j < n
        invariant 0 <= j <= n
        invariant |row| == j
        invariant forall j' :: 0 <= j' < j ==> row[j'] == ReconEntry(P, s, Q, i, j')
      {
        var v := 0.0;
        var k := 0;
        while k < |s|
          invariant 0 <= k <= |s|
          invariant v == Sum(ReconTerms(P, s, Q, i, j)[..k])
        {
          assert ReconTerms(P, s, Q, i, j)[..k + 1][..k] == ReconTerms(P, s, Q, i, j)[..k];
          v := v + P[i][k] * s[k] * Q[k][j];
          k := k + 1;
        }
        assert ReconTerms(P, s, Q, i, j)[..k] == ReconTerms(P, s, Q, i, j);
        row := row + [v];
        j := j + 1;
      }
      actual := actual + [row];
      i := i + 1;
    }

    i := 0;
    while i < |expected|
      invariant 0 <= i <= |expected|
      invariant forall i', j :: 0 <= i' < i && 0 <= j < n ==> Abs(expected[i'][j] - actual[i'][j]) <= tolerance
    {
      var j := 0;
      while j < |expected[i]|
        invariant 0 <= j <= n
        invariant forall j' :: 0 <= j' < j ==> Abs(expected[i][j'] - actual[i][j']) <= tolerance
      {
        if Abs(expected[i][j] - actual[i][j]) > tolerance {
          return Some(CheckFailure(i, j, expected[i][j], actual[i][j]));
        }
        j := j + 1;
      }
      i := i + 1;
    }
    return None;
  }

  /**
   * The reordering step of fixedSVD: when isSorted fails, sort, then apply one permutation to s, to
   * the columns of P and to the rows of Q; otherwise keep u, q and v as they are.
   */
  method Reorder(f: Factors, m: nat, n: nat) returns (d: Decomposition)
    requires FactorsShaped(f, m, n)
    ensures d == Reordered(f, m, n)
  {
    var sorted := IsSorted(f.q);
    if sorted {
      return Decomposition(f.u, f.q, f.v);
    }
    var perm := SortOrder(f.q);
    var s := Permute(f.q, perm);
    var ut := Transpose(f.u);
    var pt := Permute(ut, perm);
    var P := Transpose(pt);
    var Q := Permute(f.v, perm);
    d := Decomposition(P, s, Q);
  }

  /**
   * fixedSVD: run the primitive in the right orientation, reorder by decreasing magnitude when the
   * values are not already sorted, and, when checkFactor > 0, fail on the first entry that the
   * reordered factors do not rebuild within checkFactor.
   */
  method FixedSvd(A: Mat, epsilon: real, checkFactor: real, svd: (Mat, real) -> Factors)
    returns (r: Result<Decomposition, CheckFailure>)
    requires Rectangular(A) && |A[0]| > 0
    requires PrimitiveShape(SvdArg(A), svd(SvdArg(A), epsilon))
    ensures var d := Reordered(RunSvd(A, epsilon, svd), |A|, |A[0]|);
            (r.Ok? ==> r.value == d) &&
            (r.Err? <==> checkFactor > 0.0 && !ReconstructsWithin(A, d, checkFactor))
  {
    var f := RunSvd(A, epsilon, svd);
    var d := Reorder(f, |A|, |A[0]|);
    if checkFactor > 0.0 {
      var failure := CheckSvd(A, d.P, d.s, d.Q, checkFactor);
      assert failure.None? <==> ReconstructsWithin(A, d, checkFactor);
      if failure.Some? {
        return Err(failure.value);
      }
    }
    return Ok(d);
  }

  /** When the primitive is exact, fixedSVD's check passes for every positive tolerance. */
  lemma FixedSvdAcceptsExact(A: Mat, epsilon: real, tolerance: real, svd: (Mat, real) -> Factors)
    requires Rectangular(A) && |A[0]| > 0 && tolerance >= 0.0
    requires PrimitiveExact(SvdArg(A), svd(SvdArg(A), epsilon))
    ensures ReconstructsWithin(A, Reordered(RunSvd(A, epsilon, svd), |A|, |A[0]|), tolerance)
  {
    var f := RunSvd(A, epsilon, svd);
    RunSvdReconstructs(A, epsilon, svd);
    ReorderedKeepsProduct(f, |A|, |A[0]|);
  }
}
