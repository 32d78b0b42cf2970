/** Clients of the two evaluators: what a caller can conclude from their
    contracts alone. */
module Scenarios {
  import opened Group
  import opened Naf
  import opened Combination
  import opened PrecomputedStraus

  /** Tables for G and 2G, static scalars 3 and 5, no dynamic terms:
      the result is 3G + 5(2G) = 13G. */
  method ThirteenTimesBase(g: Point, naf: Scalar -> seq<int>) returns (r: Outcome<Option<Point>>)
    requires IsNafEncoder(naf)
    ensures r == Returned(Some(Mul(13, g)))
  {
    var straus := VartimePrecomputedStraus.New([g, Double(g)]);
    r := straus.OptionalMixedMultiscalarMul([3, 5], [], [], naf);
  }

  /** One absent dynamic point makes the call return None, whatever the
      other inputs are, even when the scalar counts do not match. */
  method AbsentDynamicPoint(g: Point, naf: Scalar -> seq<int>) returns (r: Outcome<Option<Point>>)
    requires IsNafEncoder(naf)
    ensures r == Returned(None)
  {
    var straus := VartimePrecomputedStraus.New([g]);
    var points := [Some(g), None];
    assert points[1].None?;
    r := straus.OptionalMixedMultiscalarMul([], [7], points, naf);
  }

  /** A subset call over tables for G, 2G and 4G: index 2 with scalar 1 and
      index 0 twice, with scalars 1 and 2, give 4G + G + 2G = 7G. An index
      past the end is harmless while its scalar is zero, and aborts the call
      once it is not. */
  method SubsetOfThree(g: Point, naf: Scalar -> seq<int>) returns (sum: Outcome<Point>, zero: Outcome<Point>, past: Outcome<Point>)
    requires IsNafEncoder(naf)
    ensures sum == Returned(Mul(7, g))
    ensures zero == Returned(Mul(3, g))
    ensures past == Panicked(IndexOutOfBounds)
  {
    var points := [g, Double(g), Double(Double(g))];
    var straus := VartimePrecomputedSubsetStraus.New(points);

    var pairs: seq<(nat, Scalar)> := [(2, 1), (0, 1), (0, 2)];
    assert pairs[..2] == [(2, 1), (0, 1)] && pairs[..2][..1] == [(2, 1)];
    assert SubsetCombination([(2, 1)], points) == Mul(1, points[2]);
    assert SubsetCombination(pairs[..2], points) == Add(Mul(1, points[2]), Mul(1, g));
    assert SubsetCombination(pairs, points) == Add(Add(Mul(1, points[2]), Mul(1, g)), Mul(2, g));
    assert SubsetCombination(pairs, points) == Mul(7, g);
    sum := straus.VartimeSubsetMultiscalarMul(pairs, naf);

    var withZero: seq<(nat, Scalar)> := [(9, 0), (0, 3)];
    assert withZero[..1] == [(9, 0)];
    assert SubsetCombination(withZero[..1], points) == Mul(0, Identity());
    assert SubsetCombination(withZero, points) == Add(Mul(0, Identity()), Mul(3, g));
    assert SubsetCombination(withZero, points) == Mul(3, g);
    zero := straus.VartimeSubsetMultiscalarMul(withZero, naf);

    var pastEnd: seq<(nat, Scalar)> := [(9, 1)];
    assert pastEnd[0].0 >= 3 && pastEnd[0].1 != 0;
    past := straus.VartimeSubsetMultiscalarMul(pastEnd, naf);
  }
}
