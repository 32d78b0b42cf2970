# Precomputed Straus multiscalar multiplication, in Dafny

This project models the variable-time Straus evaluators of curve25519-dalek
(`src/backend/serial/scalar_mul/precomputed_straus.rs`). Both evaluators compute
a multiscalar multiplication `k_1*P_1 + ... + k_n*P_n` and their tables are
precomputed.

- `VartimePrecomputedStraus::new` builds one width-8 lookup table per static
  point.
- `optional_mixed_multiscalar_mul` combines the static points with dynamic
  points supplied per call. Each dynamic point gets a fresh width-5 table.
  If any dynamic point is absent, the call returns `None`.
- `VartimePrecomputedSubsetStraus` runs the same loop. It walks only
  caller-chosen `(index, scalar)` pairs that point into the static tables.

Every scalar is encoded in signed digits (width-5 non-adjacent form). The loop
walks digit positions 255 down to 0. At each position it doubles the
accumulator once. Then, for every term whose digit `d` there is nonzero, it
adds `select(d)` or subtracts `select(-d)`.

What is proved:

- The loop invariant. After positions 255..j, the accumulator holds
  `sum_i (sum_{t>=j} d_i[t] * 2^(t-j)) * P_i`.
- Hence the result is `sum k_i * P_i` over the dynamic and the static terms.
- The `None` short-circuit. It happens before the length assertions.
- The two length assertions of the full evaluator.
- The subset evaluator's size assertion.
- Its exact out-of-bounds behaviour. A pair whose index is past the end
  aborts the call only if its scalar is nonzero. Only a nonzero digit reaches
  the table lookup, and a nonzero scalar always has a nonzero digit.
- Properties of the sparse sum of a subset call:
  - duplicate indices add up;
  - a subset call equals a full combination in which every unselected point
    has coefficient zero;
  - exchanging two blocks of pairs does not change the sum;
  - all-zero scalars, or no pairs at all, give the identity.
- The same two facts for the dense sum of the full evaluator: exchanging two
  blocks of terms does not change it, and all-zero scalars give the identity.

Modelling choices:

- **Group.** Points form one type. The four coordinate representations are
  collapsed, so `to_extended` and `to_projective` are the identity. The group
  is the integers under addition. Scalar multiplication `Mul` is defined by
  repeated addition and proved linear from that definition.
- **NAF encoder.** `Scalar::non_adjacent_form(5)` is not part of this model.
  The evaluators take the encoder as a function parameter with an assumed
  contract, `Naf.IsNafEncoder`. The contract says that every scalar whose
  top bit is clear (below 2^255) gets 256 digits. Each digit is 0, or odd
  with absolute value below 16. The digits reconstruct the scalar.
- **Tables.** The table builders and `select` live in `window.rs`, which is not
  part of this model. They are modelled by their values. A table for `P` holds
  `1P, 3P, 5P, ...`: 8 entries at width 5 and 64 at width 8. `select(x)` reads
  entry `x / 2`.
- **Aborts.** `assert_eq!`, `assert!` and an out-of-bounds vector index abort
  the program. They are modelled as the outcome `Panicked(reason)`, not as
  preconditions. A precondition would be wrong here: the `?` on line 72 returns
  `None` before the assertions on lines 76-77 run, even when the lengths
  disagree.
- **Digit positions.** `non_adjacent_form` returns 256 digits (`[i8; 256]`).
  A scalar's top bit is clear, so those 256 positions hold every carry. The
  loop walks them all (`(0..256).rev()`), and so does this model.
- **Inner loops.** Each inner `for i` loop of one digit position is written as
  its own method: `AddColumn`, used for the dynamic and for the static terms,
  and `AddSubsetColumn`. They perform the same lookups in the same order as
  the inline loops of the source.

## Model

| member | source | states |
|---|---|---|
| `PrecomputedStraus.VartimePrecomputedStraus.New` | src/backend/serial/scalar_mul/precomputed_straus.rs:34-45 | builds exactly one width-8 table per static point, in input order; table i is the table of static point i |
| `PrecomputedStraus.VartimePrecomputedSubsetStraus.New` | src/backend/serial/scalar_mul/precomputed_straus.rs:118-130 | builds exactly one width-8 table per static point, in input order; table i is the table of static point i |
| `PrecomputedStraus.StaticLookupTables` | src/backend/serial/scalar_mul/precomputed_straus.rs:40-43 | the mapped tables are all 64-entry odd-multiple tables, and their base points are the input points in order |
| `Window.TableFrom` | src/backend/serial/scalar_mul/precomputed_straus.rs:42 | `NafLookupTable::from(P)` yields a table of the given size whose entry k is (2k+1)P and whose base is P |
| `Window.NafLookupTable.Select` | src/backend/serial/scalar_mul/precomputed_straus.rs:89-100 | on a table of odd multiples of P, `select(x)` for a positive odd digit x within the table yields x*P |
| `Window.OddMultiples` | src/backend/serial/scalar_mul/precomputed_straus.rs:71 | the ladder P, P+2P, ... builds exactly the odd multiples (2k+1)P |
| `Window.SelectSigned` | src/backend/serial/scalar_mul/precomputed_straus.rs:88-91 | adding `select(d)` for a positive odd digit, or subtracting `select(-d)` for a negative one, adds d*P |
| `PrecomputedStraus.CollectDynamicTables` | src/backend/serial/scalar_mul/precomputed_straus.rs:69-72 | the collected tables are `None` exactly when some dynamic point is absent; otherwise they are width-5 tables of the dynamic points, in order |
| `PrecomputedStraus.EncodeAll` | src/backend/serial/scalar_mul/precomputed_straus.rs:60-67 | one encoding per scalar, each with 256 width-5 digits that reconstruct its scalar |
| `PrecomputedStraus.FoldDigit` | src/backend/serial/scalar_mul/precomputed_straus.rs:96-101 | a positive digit adds `select(t)`, a negative one subtracts `select(-t)`, zero leaves the accumulator; in every case the accumulator grows by t*P |
| `PrecomputedStraus.AddColumn` | src/backend/serial/scalar_mul/precomputed_straus.rs:86-102 | one inner loop adds, to the accumulator, the sum over the terms of digit j times the term's point |
| `PrecomputedStraus.HighPartsCombinationStep` | src/backend/serial/scalar_mul/precomputed_straus.rs:83-105 | doubling the accumulator once and adding column j turns the invariant at position j+1 into the invariant at position j |
| `PrecomputedStraus.HighPartsCombinationEnds` | src/backend/serial/scalar_mul/precomputed_straus.rs:82-107 | the invariant starts at the identity and ends at the combination of the scalars themselves |
| `PrecomputedStraus.VartimePrecomputedStraus.OptionalMixedMultiscalarMul` | src/backend/serial/scalar_mul/precomputed_straus.rs:47-108 | returns `None` when a dynamic point is absent, before any assertion; otherwise aborts on a static, then a dynamic, count mismatch; otherwise returns `Some` of the sum of k*P over dynamic and static terms |
| `PrecomputedStraus.AddSubsetColumn` | src/backend/serial/scalar_mul/precomputed_straus.rs:178-186 | aborts with an out-of-bounds index exactly when some pair past the end has a nonzero digit j; otherwise adds the sum of digit j times the indexed points |
| `PrecomputedStraus.MissingTableReached` | src/backend/serial/scalar_mul/precomputed_straus.rs:179-184 | a pair past the end whose digit is nonzero somewhere has a nonzero scalar |
| `PrecomputedStraus.MissingTableNeverReached` | src/backend/serial/scalar_mul/precomputed_straus.rs:165-189 | if no pair past the end ever reaches the lookup, every pair past the end has a zero scalar |
| `PrecomputedStraus.NoMissingTableAt` | src/backend/serial/scalar_mul/precomputed_straus.rs:166-189 | no out-of-bounds lookup from position j upwards rules one out at every position from j to 255 |
| `PrecomputedStraus.VartimePrecomputedSubsetStraus.VartimeSubsetMultiscalarMul` | src/backend/serial/scalar_mul/precomputed_straus.rs:132-192 | aborts when there are more pairs than tables; else aborts when a pair past the end has a nonzero scalar; else returns the sum of k*P[index] over the pairs |
| `Naf.NonzeroDigitValue` | src/backend/serial/scalar_mul/precomputed_straus.rs:180-184 | an encoding whose nonzero digits are odd, and which has a nonzero digit, denotes a nonzero scalar |
| `Naf.ZeroDigitsValue` | src/backend/serial/scalar_mul/precomputed_straus.rs:180-181 | an encoding with only zero digits denotes zero |
| `Naf.HighPartsStep` | src/backend/serial/scalar_mul/precomputed_straus.rs:84-104 | the high part from position j is digit j plus twice the high part from position j+1 |
| `Combination.DoubleAndAdd` | src/backend/serial/scalar_mul/precomputed_straus.rs:84-104 | a combination whose coefficients are a + 2b equals twice the combination with b plus the one with a |
| `Combination.ZeroCoefficients` | src/backend/serial/scalar_mul/precomputed_straus.rs:82-107 | all-zero scalars, or no terms at all, give the identity |
| `Combination.LinearCombinationAppend` | src/backend/serial/scalar_mul/precomputed_straus.rs:86-102 | the combination of two concatenated groups of terms is the sum of the two combinations, as when dynamic terms are folded before static ones |
| `Combination.SwapBlocks` | src/backend/serial/scalar_mul/precomputed_straus.rs:86-102 | exchanging two blocks of terms leaves the result unchanged |
| `Combination.SubsetSwapBlocks` | src/backend/serial/scalar_mul/precomputed_straus.rs:178-186 | exchanging two blocks of (index, scalar) pairs leaves the result of a subset call unchanged |
| `Combination.SubsetZeroScalars` | src/backend/serial/scalar_mul/precomputed_straus.rs:165-191 | pairs whose scalars are all zero, or no pairs at all, give the identity whatever indices they carry |
| `Combination.SubsetAsLinearCombination` | src/backend/serial/scalar_mul/precomputed_straus.rs:140-146 | the sparse sum over pairs is the dense combination of the pairs' scalars with the points their indices select |
| `Combination.SubsetAppend` | src/backend/serial/scalar_mul/precomputed_straus.rs:178-186 | the sparse sum over concatenated pair lists is the sum of the two sparse sums |
| `Combination.DuplicateIndices` | src/backend/serial/scalar_mul/precomputed_straus.rs:178-186 | two pairs with the same index, wherever they stand, contribute what one pair with the summed scalar contributes |
| `Combination.SubsetIsFullCombination` | src/backend/serial/scalar_mul/precomputed_straus.rs:178-186 | a subset call computes the full combination over all static points in which unselected points have coefficient zero and duplicates are summed |
| `Combination.RaiseCoefficient` | src/backend/serial/scalar_mul/precomputed_straus.rs:95-102 | raising one term's scalar by k adds k times that term's point |
| `Scenarios.ThirteenTimesBase` | src/backend/serial/scalar_mul/precomputed_straus.rs:34-108 | tables for G and 2G with static scalars 3 and 5 give `Some(13G)` |
| `Scenarios.AbsentDynamicPoint` | src/backend/serial/scalar_mul/precomputed_straus.rs:69-77 | one absent dynamic point gives `None`, even when the scalar counts disagree |
| `Scenarios.SubsetOfThree` | src/backend/serial/scalar_mul/precomputed_straus.rs:157-191 | a subset call over G, 2G and 4G sums selected terms with a duplicate index; an index past the end with scalar 0 is harmless; with scalar 1 it aborts |

## Left out

- Field arithmetic and the coordinate formulas behind `double`, `to_extended`,
  `to_projective` and the Niels additions. They live in the curve models, which
  are not part of this model. The group is modelled as the integers under
  addition, with one point type.
- `Scalar::non_adjacent_form`: its contract is assumed (`Naf.IsNafEncoder`),
  not derived. The NAF sparsity property is not assumed, because correctness
  does not depend on it.
- Reduction of scalars modulo the group order. Scalars are integers whose top bit
  is clear (below 2^255). In the lemmas about sums of pairs, scalar sums such as `k1 + k2`
  are integer sums, not reduced.
- The table builders and `select` of `window.rs` are not part of this model.
  They are modelled by the values they produce.
- Running time and memory-access patterns (variable-time behaviour),
  `Borrow`/`IntoIterator` plumbing, and the `unzip` into two vectors. The
  subset evaluator reads each pair's index directly.
- The commented-out dynamic-point code of the subset variant (lines 147-155,
  169-176). It is dead code.
- The struct field is private, so every value comes from `new`. This is
  modelled as a `Valid()` precondition on the evaluators.
- Combination.SwapBlocks: order independence is proved for exchanging two
  blocks of terms. A general permutation is not stated as one lemma. It is a
  sequence of such exchanges.
