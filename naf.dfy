/** Signed-digit (non-adjacent form) scalar encodings.

    `Scalar::non_adjacent_form(5)` is an external collaborator of the
    evaluators: they receive it as a function value and rely only on the
    contract `IsNafEncoder` below. */
module Naf {

  /** Number of digit positions of an encoding (`[i8; 256]`). */
  const NAF_LEN: nat := 256

  /** Every encoding the evaluators use has window width 5, so each nonzero
      digit d is odd with |d| < 2^(5-1). */
  const DIGIT_BOUND: int := 16

  /** 2^255: the scalars the encoder accepts have their top bit clear. */
  const SCALAR_BOUND: nat := 0x8000_0000_0000_0000_0000_0000_0000_0000_0000_0000_0000_0000_0000_0000_0000_0000

  type Scalar = k: nat | k < SCALAR_BOUND

  /** The integer a little-endian signed-digit sequence denotes:
      digits[0] + 2*digits[1] + 4*digits[2] + ... */
  function Value(digits: seq<int>): int
  {
    if |digits| == 0 then 0 else digits[0] + 2 * Value(digits[1..])
  }

  predicate IsNafDigit(d: int)
  {
    d == 0 || (d % 2 == 1 && -DIGIT_BOUND < d < DIGIT_BOUND)
  }

  /** `digits` is a width-5 signed-digit encoding of k with NAF_LEN positions. */
  ghost predicate IsNaf(digits: seq<int>, k: int)
  {
    |digits| == NAF_LEN
    && (forall t :: 0 <= t < |digits| ==> IsNafDigit(digits[t]))
    && Value(digits) == k
  }

  /** Every encoding has NAF_LEN digits, each a width-5 NAF digit. */
  ghost predicate WellFormedNafs(nafs: seq<seq<int>>)
  {
    forall i :: 0 <= i < |nafs| ==>
      |nafs[i]| == NAF_LEN && forall t :: 0 <= t < NAF_LEN ==> IsNafDigit(nafs[i][t])
  }

  /** The contract assumed of `non_adjacent_form(5)`. */
  ghost predicate IsNafEncoder(naf: Scalar -> seq<int>)
  {
    forall k: Scalar :: IsNaf(naf(k), k)
  }

  /** Digit j of every encoding in `nafs`. */
  ghost function Column(nafs: seq<seq<int>>, j: nat): (c: seq<int>)
    requires forall i :: 0 <= i < |nafs| ==> j < |nafs[i]|
  {
    seq(|nafs|, i requires 0 <= i < |nafs| => nafs[i][j])
  }

  /** For every encoding, the value of its digits from position j upwards,
      read with digit j as the units digit: what an interleaved
      double-and-add loop has accumulated for that term once it has walked
      the positions from the top down to j. */
  ghost function HighParts(nafs: seq<seq<int>>, j: nat): (h: seq<int>)
    requires forall i :: 0 <= i < |nafs| ==> j <= |nafs[i]|
  {
    seq(|nafs|, i requires 0 <= i < |nafs| => Value(nafs[i][j..]))
  }

  /** Peeling off the lowest digit of the remaining high part. */
  lemma ValueAt(digits: seq<int>, j: nat)
    requires j < |digits|
    ensures Value(digits[j..]) == digits[j] + 2 * Value(digits[j + 1..])
  {
    assert digits[j..][1..] == digits[j + 1..];
  }

  /** One step of the walk: the high parts at j are the high parts at j + 1,
      doubled, plus column j. */
  lemma HighPartsStep(nafs: seq<seq<int>>, j: nat)
    requires forall i :: 0 <= i < |nafs| ==> j < |nafs[i]|
    ensures |HighParts(nafs, j)| == |HighParts(nafs, j + 1)| == |Column(nafs, j)| == |nafs|
    ensures forall i :: 0 <= i < |nafs| ==>
      HighParts(nafs, j)[i] == Column(nafs, j)[i] + 2 * HighParts(nafs, j + 1)[i]
  {
    forall i | 0 <= i < |nafs|
      ensures HighParts(nafs, j)[i] == Column(nafs, j)[i] + 2 * HighParts(nafs, j + 1)[i]
    {
      ValueAt(nafs[i], j);
    }
  }

  /** Before any position is walked every high part is zero. */
  lemma HighPartsAtTop(nafs: seq<seq<int>>)
    requires forall i :: 0 <= i < |nafs| ==> |nafs[i]| == NAF_LEN
    ensures forall i :: 0 <= i < |nafs| ==> HighParts(nafs, NAF_LEN)[i] == 0
  {
    forall i | 0 <= i < |nafs| ensures HighParts(nafs, NAF_LEN)[i] == 0 {
      assert nafs[i][NAF_LEN..] == [];
    }
  }

  /** After the last position the high parts are the encoded scalars. */
  lemma HighPartsAtBottom(nafs: seq<seq<int>>, scalars: seq<int>)
    requires |nafs| == |scalars|
    requires forall i :: 0 <= i < |nafs| ==> IsNaf(nafs[i], scalars[i])
    ensures HighParts(nafs, 0) == scalars
  {
    forall i | 0 <= i < |nafs| ensures HighParts(nafs, 0)[i] == scalars[i] {
      assert nafs[i][0..] == nafs[i];
    }
  }

  /** Digits that are all zero denote zero. */
  lemma {:induction false} ZeroDigitsValue(digits: seq<int>)
    requires forall t :: 0 <= t < |digits| ==> digits[t] == 0
    ensures Value(digits) == 0
  {
    if |digits| > 0 {
      ZeroDigitsValue(digits[1..]);
    }
  }

  /** An encoding whose nonzero digits are all odd denotes zero only if every
      digit is zero: its lowest nonzero digit is odd, so the value is an odd
      multiple of a power of two. */
  lemma {:induction false} NonzeroDigitValue(digits: seq<int>, t: nat)
    requires forall u :: 0 <= u < |digits| ==> IsNafDigit(digits[u])
    requires t < |digits| && digits[t] != 0
    ensures Value(digits) != 0
  {
    if digits[0] != 0 {
      assert IsNafDigit(digits[0]);
      assert (digits[0] + 2 * Value(digits[1..])) % 2 == 1;
    } else {
      NonzeroDigitValue(digits[1..], t - 1);
    }
  }
}
