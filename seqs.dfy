/** Sums of real sequences and index-driven rearrangements, shared by the matrix code. */
module Seqs {

  /** The sum of a sequence of reals, accumulated from the front as the source's loops do. */
  function Sum(s: seq<real>): real
  {
    if |s| == 0 then 0.0 else Sum(s[..|s| - 1]) + s[|s| - 1]
  }

  /** The indices 0 .. n-1 in increasing order. */
  function Range(n: nat): (r: seq<nat>)
    ensures |r| == n && forall i :: 0 <= i < n ==> r[i] == i
  {
    seq(n, i => i)
  }

  /** The elements of `x` at the positions listed in `idx`, in that order. */
  function Pick<T>(x: seq<T>, idx: seq<nat>): seq<T>
    requires forall k :: 0 <= k < |idx| ==> idx[k] < |x|
  {
    seq(|idx|, k requires 0 <= k < |idx| => x[idx[k]])
  }

  /** `perm` lists every index below n exactly once. */
  ghost predicate IsIndexPermutation(perm: seq<nat>, n: nat)
  {
    multiset(perm) == multiset(Range(n))
  }

  lemma IndexPermutationBounds(perm: seq<nat>, n: nat)
    requires IsIndexPermutation(perm, n)
    ensures |perm| == n
    ensures forall k :: 0 <= k < |perm| ==> perm[k] < n
  {
    assert |multiset(perm)| == |multiset(Range(n))|;
    forall k | 0 <= k < |perm| ensures perm[k] < n {
      assert perm[k] in multiset(Range(n));
    }
  }

  lemma SumPair(a: real, b: real)
    ensures Sum([a, b]) == a + b
  {
    assert [a][..0] == [];
    assert Sum([a]) == a;
    assert [a, b][..1] == [a];
  }

  lemma {:induction false} SumConcat(a: seq<real>, b: seq<real>)
    ensures Sum(a + b) == Sum(a) + Sum(b)
    decreases |b|
  {
    if |b| == 0 {
      assert a + b == a;
    } else {
      assert (a + b)[..|a + b| - 1] == a + b[..|b| - 1];
      SumConcat(a, b[..|b| - 1]);
    }
  }

  /** The sum does not depend on the order of the terms. */
  lemma {:induction false} SumMultiset(a: seq<real>, b: seq<real>)
    requires multiset(a) == multiset(b)
    ensures Sum(a) == Sum(b)
    decreases |a|
  {
    assert |a| == |multiset(a)| == |multiset(b)| == |b|;
    if |a| > 0 {
      var x := a[|a| - 1];
      var a' := a[..|a| - 1];
      assert a == a' + [x];
      assert x in multiset(b);
      var k :| 0 <= k < |b| && b[k] == x;
      var b' := b[..k] + b[k + 1..];
      assert b == b[..k] + [x] + b[k + 1..];
      MultisetRemove(a', x, b, k);
      SumMultiset(a', b');
      SumConcat(b[..k] + [x], b[k + 1..]);
      SumConcat(b[..k], [x]);
      SumConcat(b[..k], b[k + 1..]);
    }
  }

  lemma PickConcat<T>(x: seq<T>, a: seq<nat>, b: seq<nat>)
    requires forall k :: 0 <= k < |a| ==> a[k] < |x|
    requires forall k :: 0 <= k < |b| ==> b[k] < |x|
    ensures multiset(Pick(x, a + b)) == multiset(Pick(x, a)) + multiset(Pick(x, b))
  {
    assert Pick(x, a + b) == Pick(x, a) + Pick(x, b);
  }

  /** Taking the same element out of two equal multisets leaves equal multisets. */
  lemma MultisetRemove<T>(a: seq<T>, t: T, b: seq<T>, k: nat)
    requires multiset(a + [t]) == multiset(b)
    requires k < |b| && b[k] == t
    ensures multiset(a) == multiset(b[..k] + b[k + 1..])
  {
    var rest := b[..k] + b[k + 1..];
    assert b == b[..k] + [t] + b[k + 1..];
    assert multiset(b) == multiset(rest) + multiset{t};
    assert multiset(a + [t]) == multiset(a) + multiset{t};
    calc {
      multiset(a);
      (multiset(a) + multiset{t}) - multiset{t};
      (multiset(rest) + multiset{t}) - multiset{t};
      multiset(rest);
    }
  }

  /** Index bounds carry over between two listings of the same indices. */
  lemma BoundsTransfer(a: seq<nat>, b: seq<nat>, n: nat)
    requires multiset(a) == multiset(b)
    requires forall k :: 0 <= k < |a| ==> a[k] < n
    ensures forall k :: 0 <= k < |b| ==> b[k] < n
  {
    forall k | 0 <= k < |b| ensures b[k] < n {
      assert b[k] in multiset(a);
    }
  }

  /** Picking through two listings of the same indices gives the same elements, in some order. */
  lemma {:induction false} PickMultiset<T>(x: seq<T>, a: seq<nat>, b: seq<nat>)
    requires multiset(a) == multiset(b)
    requires forall k :: 0 <= k < |a| ==> a[k] < |x|
    ensures forall k :: 0 <= k < |b| ==> b[k] < |x|
    ensures multiset(Pick(x, a)) == multiset(Pick(x, b))
    decreases |a|
  {
    BoundsTransfer(a, b, |x|);
    assert |a| == |multiset(a)| == |multiset(b)| == |b|;
    if |a| > 0 {
      var t := a[|a| - 1];
      var a' := a[..|a| - 1];
      assert a == a' + [t];
      assert t in multiset(b);
      var k :| 0 <= k < |b| && b[k] == t;
      MultisetRemove(a', t, b, k);
      PickMultiset(x, a', b[..k] + b[k + 1..]);
      PickMultisetStep(x, a', t, b, k);
    }
  }

  /** The inductive step of PickMultiset: put the same index back at both ends. */
  lemma PickMultisetStep<T>(x: seq<T>, a: seq<nat>, t: nat, b: seq<nat>, k: nat)
    requires k < |b| && b[k] == t && t < |x|
    requires forall i :: 0 <= i < |a| ==> a[i] < |x|
    requires forall i :: 0 <= i < |b| ==> b[i] < |x|
    requires multiset(Pick(x, a)) == multiset(Pick(x, b[..k] + b[k + 1..]))
    ensures multiset(Pick(x, a + [t])) == multiset(Pick(x, b))
  {
    var b1, b2 := b[..k], b[k + 1..];
    assert b == (b1 + [t]) + b2;
    PickConcat(x, a, [t]);
    PickConcat(x, b1 + [t], b2);
    PickConcat(x, b1, [t]);
    PickConcat(x, b1, b2);
  }

  /** Picking through a permutation of all indices rearranges the sequence. */
  lemma PickPermutation<T>(x: seq<T>, perm: seq<nat>)
    requires IsIndexPermutation(perm, |x|)
    ensures forall k :: 0 <= k < |perm| ==> perm[k] < |x|
    ensures multiset(Pick(x, perm)) == multiset(x)
  {
    IndexPermutationBounds(perm, |x|);
    PickMultiset(x, perm, Range(|x|));
    assert Pick(x, Range(|x|)) == x;
  }

  /** Every element multiplied by c. */
  function Scale(s: seq<real>, c: real): seq<real>
  {
    seq(|s|, i requires 0 <= i < |s| => s[i] * c)
  }

  lemma {:induction false} SumScale(s: seq<real>, c: real)
    ensures Sum(Scale(s, c)) == Sum(s) * c
    decreases |s|
  {
    if |s| > 0 {
      var n := |s| - 1;
      assert forall i :: 0 <= i < n ==> Scale(s, c)[..n][i] == Scale(s[..n], c)[i];
      assert Scale(s, c)[..n] == Scale(s[..n], c);
      SumScale(s[..n], c);
    }
  }

  /** Element-wise sum of two sequences of the same length. */
  function AddPointwise(a: seq<real>, b: seq<real>): seq<real>
    requires |a| == |b|
  {
    seq(|a|, i requires 0 <= i < |a| => a[i] + b[i])
  }

  lemma {:induction false} SumPointwiseAdd(a: seq<real>, b: seq<real>)
    requires |a| == |b|
    ensures Sum(AddPointwise(a, b)) == Sum(a) + Sum(b)
    decreases |a|
  {
    if |a| > 0 {
      var n := |a| - 1;
      assert forall i :: 0 <= i < n ==> AddPointwise(a, b)[..n][i] == AddPointwise(a[..n], b[..n])[i];
      assert AddPointwise(a, b)[..n] == AddPointwise(a[..n], b[..n]);
      SumPointwiseAdd(a[..n], b[..n]);
    }
  }

  /** n copies of c add up to n * c. */
  lemma {:induction false} SumConstant(n: nat, c: real)
    ensures Sum(seq(n, _ => c)) == n as real * c
  {
    if n > 0 {
      assert seq(n, _ => c)[..n - 1] == seq(n - 1, _ => c);
      SumConstant(n - 1, c);
    }
  }

  /** A sum of non-negative terms is non-negative and bounds the sum of every prefix. */
  lemma {:induction false} SumPrefixBound(s: seq<real>, k: nat)
    requires k <= |s|
    requires forall i :: 0 <= i < |s| ==> s[i] >= 0.0
    ensures 0.0 <= Sum(s[..k]) <= Sum(s)
    decreases |s|
  {
    if k < |s| {
      var n := |s| - 1;
      assert s[..n][..k] == s[..k];
      SumPrefixBound(s[..n], k);
    } else {
      assert s[..k] == s;
      if k > 0 {
        var n := |s| - 1;
        assert s[..n][..n] == s[..n];
        SumPrefixBound(s[..n], n);
      }
    }
  }
}
