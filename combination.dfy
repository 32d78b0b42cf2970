/** Linear combinations of points: the value every evaluator must return. */
module Combination {
  import opened Group

  /** coeffs[0]*points[0] + ... + coeffs[n-1]*points[n-1], summed in order. */
  function LinearCombination(coeffs: seq<int>, points: seq<Point>): Point
    requires |coeffs| == |points|
  {
    if |coeffs| == 0 then Identity()
    else
      var n := |coeffs| - 1;
      Add(LinearCombination(coeffs[..n], points[..n]), Mul(coeffs[n], points[n]))
  }

  /** Taking one more term of a prefix adds that term. */
  lemma LinearCombinationExtend(coeffs: seq<int>, points: seq<Point>, i: nat)
    requires |coeffs| == |points| && i < |coeffs|
    ensures LinearCombination(coeffs[..i + 1], points[..i + 1])
         == Add(LinearCombination(coeffs[..i], points[..i]), Mul(coeffs[i], points[i]))
  {
    assert coeffs[..i + 1][..i] == coeffs[..i];
    assert points[..i + 1][..i] == points[..i];
  }

  /** A combination whose coefficients are all zero, including the empty
      combination, is the identity. */
  lemma {:induction false} ZeroCoefficients(coeffs: seq<int>, points: seq<Point>)
    requires |coeffs| == |points|
    requires forall i :: 0 <= i < |coeffs| ==> coeffs[i] == 0
    ensures LinearCombination(coeffs, points) == Identity()
  {
    if |coeffs| > 0 {
      var n := |coeffs| - 1;
      ZeroCoefficients(coeffs[..n], points[..n]);
    }
  }

  /** Double-and-add is linear: if every coefficient of c is a + 2b, the
      combination with c is twice the combination with b plus the one with a. */
  lemma {:induction false} DoubleAndAdd(c: seq<int>, a: seq<int>, b: seq<int>, points: seq<Point>)
    requires |c| == |a| == |b| == |points|
    requires forall i :: 0 <= i < |c| ==> c[i] == a[i] + 2 * b[i]
    ensures LinearCombination(c, points)
         == Add(Double(LinearCombination(b, points)), LinearCombination(a, points))
  {
    if |c| > 0 {
      var n := |c| - 1;
      DoubleAndAdd(c[..n], a[..n], b[..n], points[..n]);
      MulDoubleAndAdd(a[n], b[n], points[n]);
    }
  }

  /** A combination of concatenated terms is the sum of the two parts. */
  lemma {:induction false} LinearCombinationAppend(c1: seq<int>, p1: seq<Point>, c2: seq<int>, p2: seq<Point>)
    requires |c1| == |p1| && |c2| == |p2|
    ensures LinearCombination(c1 + c2, p1 + p2)
         == Add(LinearCombination(c1, p1), LinearCombination(c2, p2))
  {
    if |c2| > 0 {
      var n := |c2| - 1;
      assert (c1 + c2)[..|c1| + n] == c1 + c2[..n];
      assert (p1 + p2)[..|p1| + n] == p1 + p2[..n];
      LinearCombinationAppend(c1, p1, c2[..n], p2[..n]);
    } else {
      assert c1 + c2 == c1 && p1 + p2 == p1;
    }
  }

  /** Order independence: exchanging two blocks of terms leaves the
      combination unchanged. Any reordering is a sequence of such exchanges. */
  lemma SwapBlocks(c1: seq<int>, p1: seq<Point>, c2: seq<int>, p2: seq<Point>)
    requires |c1| == |p1| && |c2| == |p2|
    ensures LinearCombination(c1 + c2, p1 + p2) == LinearCombination(c2 + c1, p2 + p1)
  {
    LinearCombinationAppend(c1, p1, c2, p2);
    LinearCombinationAppend(c2, p2, c1, p1);
  }

  /** Raising one coefficient by k adds k times that term's point. */
  lemma {:induction false} RaiseCoefficient(coeffs: seq<int>, points: seq<Point>, x: nat, k: int)
    requires |coeffs| == |points| && x < |coeffs|
    ensures LinearCombination(coeffs[x := coeffs[x] + k], points)
         == Add(LinearCombination(coeffs, points), Mul(k, points[x]))
  {
    var n := |coeffs| - 1;
    var raised := coeffs[x := coeffs[x] + k];
    MulAdd(coeffs[x], k, points[x]);
    if x == n {
      assert raised[..n] == coeffs[..n];
    } else {
      assert raised[..n] == coeffs[..n][x := coeffs[x] + k];
      RaiseCoefficient(coeffs[..n], points[..n], x, k);
    }
  }

  // ---- Sparse combinations over (index, scalar) pairs ----

  /** The point a pair's index selects; an index past the end selects nothing. */
  function TermPoint(index: nat, points: seq<Point>): Point
  {
    if index < |points| then points[index] else Identity()
  }

  /** The sum of k*points[index] over the pairs, in order; a pair whose index
      is past the end contributes nothing. */
  function SubsetCombination(pairs: seq<(nat, int)>, points: seq<Point>): Point
  {
    if |pairs| == 0 then Identity()
    else
      var n := |pairs| - 1;
      Add(SubsetCombination(pairs[..n], points), Mul(pairs[n].1, TermPoint(pairs[n].0, points)))
  }

  function PairScalars(pairs: seq<(nat, int)>): (s: seq<int>)
    ensures |s| == |pairs|
  {
    seq(|pairs|, i requires 0 <= i < |pairs| => pairs[i].1)
  }

  function PairPoints(pairs: seq<(nat, int)>, points: seq<Point>): (s: seq<Point>)
    ensures |s| == |pairs|
  {
    seq(|pairs|, i requires 0 <= i < |pairs| => TermPoint(pairs[i].0, points))
  }

  /** A sparse combination is the dense combination of its pairs' scalars
      with the points their indices select. */
  lemma {:induction false} SubsetAsLinearCombination(pairs: seq<(nat, int)>, points: seq<Point>)
    ensures SubsetCombination(pairs, points)
         == LinearCombination(PairScalars(pairs), PairPoints(pairs, points))
  {
    if |pairs| > 0 {
      var n := |pairs| - 1;
      SubsetAsLinearCombination(pairs[..n], points);
      assert PairScalars(pairs)[..n] == PairScalars(pairs[..n]);
      assert PairPoints(pairs, points)[..n] == PairPoints(pairs[..n], points);
    }
  }

  lemma {:induction false} SubsetAppend(a: seq<(nat, int)>, b: seq<(nat, int)>, points: seq<Point>)
    ensures SubsetCombination(a + b, points)
         == Add(SubsetCombination(a, points), SubsetCombination(b, points))
  {
    if |b| > 0 {
      var n := |b| - 1;
      assert (a + b)[..|a| + n] == a + b[..n];
      SubsetAppend(a, b[..n], points);
    } else {
      assert a + b == a;
    }
  }

  /** Duplicate indices are not rejected: two pairs for the same index, wherever
      they stand, contribute exactly what one pair with the summed scalar does. */
  lemma DuplicateIndices(a: seq<(nat, int)>, b: seq<(nat, int)>, c: seq<(nat, int)>,
                         index: nat, k1: int, k2: int, points: seq<Point>)
    ensures SubsetCombination(a + [(index, k1)] + b + [(index, k2)] + c, points)
         == SubsetCombination(a + [(index, k1 + k2)] + b + c, points)
  {
    var p := TermPoint(index, points);
    var first, second, merged := [(index, k1)], [(index, k2)], [(index, k1 + k2)];
    assert SubsetCombination(first, points) == Mul(k1, p);
    assert SubsetCombination(second, points) == Mul(k2, p);
    MulAdd(k1, k2, p);
    assert SubsetCombination(merged, points) == Add(Mul(k1, p), Mul(k2, p));
    SubsetAppend(a + first + b + second, c, points);
    SubsetAppend(a + first + b, second, points);
    SubsetAppend(a + first, b, points);
    SubsetAppend(a, first, points);
    SubsetAppend(a + merged + b, c, points);
    SubsetAppend(a + merged, b, points);
    SubsetAppend(a, merged, points);
  }

  /** Order independence of a subset call: exchanging two blocks of pairs
      leaves the sparse sum unchanged. */
  lemma SubsetSwapBlocks(a: seq<(nat, int)>, b: seq<(nat, int)>, points: seq<Point>)
    ensures SubsetCombination(a + b, points) == SubsetCombination(b + a, points)
  {
    SubsetAppend(a, b, points);
    SubsetAppend(b, a, points);
  }

  /** Pairs whose scalars are all zero, and no pairs at all, give the identity,
      whatever their indices select. */
  lemma SubsetZeroScalars(pairs: seq<(nat, int)>, points: seq<Point>)
    requires forall i :: 0 <= i < |pairs| ==> pairs[i].1 == 0
    ensures SubsetCombination(pairs, points) == Identity()
  {
    SubsetAsLinearCombination(pairs, points);
    ZeroCoefficients(PairScalars(pairs), PairPoints(pairs, points));
  }

  /** The dense coefficient vector of a set of pairs: coefficient x is the sum
      of the scalars paired with index x (zero when none is). */
  function Scatter(pairs: seq<(nat, int)>, n: nat): (coeffs: seq<int>)
    ensures |coeffs| == n
  {
    if |pairs| == 0 then seq(n, _ => 0)
    else
      var last := |pairs| - 1;
      var prev := Scatter(pairs[..last], n);
      var (index, k) := pairs[last];
      if index < n then prev[index := prev[index] + k] else prev
  }

  /** Subset equivalence: a sparse combination equals the full combination
      over all points in which the unselected points have coefficient zero. */
  lemma {:induction false} SubsetIsFullCombination(pairs: seq<(nat, int)>, points: seq<Point>)
    ensures SubsetCombination(pairs, points)
         == LinearCombination(Scatter(pairs, |points|), points)
  {
    if |pairs| == 0 {
      ZeroCoefficients(Scatter(pairs, |points|), points);
    } else {
      var last := |pairs| - 1;
      SubsetIsFullCombination(pairs[..last], points);
      var (index, k) := pairs[last];
      if index < |points| {
        RaiseCoefficient(Scatter(pairs[..last], |points|), points, index, k);
      } else {
        MulIdentity(k);
      }
    }
  }
}
