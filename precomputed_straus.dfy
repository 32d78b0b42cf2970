/** Straus's method with precomputed tables, in variable time
    (`src/backend/serial/scalar_mul/precomputed_straus.rs`).

    Both evaluators walk the 256 digit positions from the most significant
    down, doubling an accumulator once per position and folding in one signed
    table lookup per term whose digit there is nonzero. The assertions of the
    source and the bounds check of a vector index, which abort the program,
    are modelled as the `Panicked` outcome. */
module PrecomputedStraus {
  import opened Group
  import opened Naf
  import opened Window
  import opened Combination

  datatype Option<T> = None | Some(value: T)

  /** Why a call aborts instead of returning. */
  datatype Panic =
    | StaticLengthMismatch   // assert_eq!(sp, static_nafs.len())
    | DynamicLengthMismatch  // assert_eq!(dp, dynamic_nafs.len())
    | SubsetTooLarge         // assert!(num_scalars <= sp)
    | IndexOutOfBounds       // static_lookup_tables[base_idx] with base_idx >= sp

  /** What a call does: return a value, or abort. */
  datatype Outcome<T> = Returned(value: T) | Panicked(panic: Panic)

  predicate AllPresent<T>(xs: seq<Option<T>>)
  {
    forall i :: 0 <= i < |xs| ==> xs[i].Some?
  }

  function Unwrapped<T>(xs: seq<Option<T>>): (r: seq<T>)
    requires AllPresent(xs)
    ensures |r| == |xs|
  {
    seq(|xs|, i requires 0 <= i < |xs| => xs[i].value)
  }

  /** Every table is a table of `size` odd multiples of its first entry. */
  ghost predicate AreTables(tables: seq<NafLookupTable>, size: nat)
  {
    forall i :: 0 <= i < |tables| ==> tables[i].IsTable(size)
  }

  /** The points the tables were built from, in order. */
  ghost function TablePoints(tables: seq<NafLookupTable>): (points: seq<Point>)
    requires forall i :: 0 <= i < |tables| ==> 0 < |tables[i].entries|
    ensures |points| == |tables|
  {
    seq(|tables|, i requires 0 <= i < |tables| => tables[i].Base())
  }

  /** The width-5 tables of the dynamic points, collected into an `Option`:
      the first absent point makes the whole collection absent. */
  function CollectDynamicTables(points: seq<Option<Point>>): (r: Option<seq<NafLookupTable>>)
    ensures r.None? <==> !AllPresent(points)
    ensures r.Some? ==> AreTables(r.value, TABLE5_SIZE) && TablePoints(r.value) == Unwrapped(points)
  {
    if |points| == 0 then Some([])
    else
      match points[0]
      case None => None
      case Some(p) =>
        match CollectDynamicTables(points[1..])
        case None => assert !AllPresent(points[1..]); None
        case Some(rest) =>
          var tables := [TableFrom(p, TABLE5_SIZE)] + rest;
          assert TablePoints(tables) == [p] + TablePoints(rest);
          assert Unwrapped(points) == [p] + Unwrapped(points[1..]);
          Some(tables)
  }

  /** The body shared by both `new`s: one width-8 table per static point. */
  function StaticLookupTables(staticPoints: seq<Point>): (tables: seq<NafLookupTable>)
    ensures AreTables(tables, TABLE8_SIZE)
    ensures TablePoints(tables) == staticPoints
  {
    seq(|staticPoints|, i requires 0 <= i < |staticPoints| => TableFrom(staticPoints[i], TABLE8_SIZE))
  }

  /** Encodes every scalar (`.map(|c| c.borrow().non_adjacent_form(5)).collect()`). */
  function EncodeAll(scalars: seq<Scalar>, naf: Scalar -> seq<int>): (nafs: seq<seq<int>>)
    requires IsNafEncoder(naf)
    ensures |nafs| == |scalars| && WellFormedNafs(nafs)
    ensures forall i :: 0 <= i < |scalars| ==> Value(nafs[i]) == scalars[i]
  {
    var nafs := seq(|scalars|, i requires 0 <= i < |scalars| => naf(scalars[i]));
    assert forall i :: 0 <= i < |scalars| ==> IsNaf(nafs[i], scalars[i]);
    nafs
  }

  /** One digit position for one group of terms: if the accumulator held the
      combination of the high parts at j + 1, doubling it and adding column j
      gives the combination of the high parts at j. */
  lemma HighPartsCombinationStep(nafs: seq<seq<int>>, points: seq<Point>, j: nat)
    requires |nafs| == |points|
    requires forall i :: 0 <= i < |nafs| ==> j < |nafs[i]|
    ensures LinearCombination(HighParts(nafs, j), points)
         == Add(Double(LinearCombination(HighParts(nafs, j + 1), points)),
                LinearCombination(Column(nafs, j), points))
  {
    HighPartsStep(nafs, j);
    DoubleAndAdd(HighParts(nafs, j), Column(nafs, j), HighParts(nafs, j + 1), points);
  }

  /** Before the first position the combination of the high parts is the
      identity; after the last it is the combination of the scalars. */
  lemma HighPartsCombinationEnds(nafs: seq<seq<int>>, scalars: seq<int>, points: seq<Point>)
    requires |nafs| == |scalars| == |points| && WellFormedNafs(nafs)
    requires forall i :: 0 <= i < |nafs| ==> Value(nafs[i]) == scalars[i]
    ensures LinearCombination(HighParts(nafs, NAF_LEN), points) == Identity()
    ensures LinearCombination(HighParts(nafs, 0), points) == LinearCombination(scalars, points)
  {
    HighPartsAtTop(nafs);
    ZeroCoefficients(HighParts(nafs, NAF_LEN), points);
    HighPartsAtBottom(nafs, scalars);
  }

  /** Folds one term's digit t into the accumulator: a positive digit adds
      `select(t)`, a negative digit subtracts `select(-t)`, a zero digit leaves
      the accumulator as it is. In every case t times the table's point is added. */
  function FoldDigit(acc: Point, table: NafLookupTable, size: nat, t: int): (r: Point)
    requires table.IsTable(size) && DIGIT_BOUND <= 2 * size
    requires IsNafDigit(t)
    ensures r == Add(acc, Mul(t, table.Base()))
  {
    if t > 0 then
      SelectSigned(table, size, acc, t);
      Add(acc, table.Select(t))
    else if t < 0 then
      SelectSigned(table, size, acc, t);
      Sub(acc, table.Select(-t))
    else
      acc
  }

  /** The inner loop over one group of terms at digit position j
      (`for i in 0..dp` and `for i in 0..sp`): digit j of term i is folded in
      with table i, in order of i. */
  method AddColumn(acc: Point, nafs: seq<seq<int>>, tables: seq<NafLookupTable>, size: nat, j: nat)
    returns (r: Point)
    requires |nafs| == |tables| && WellFormedNafs(nafs) && j < NAF_LEN
    requires AreTables(tables, size) && DIGIT_BOUND <= 2 * size
    ensures r == Add(acc, LinearCombination(Column(nafs, j), TablePoints(tables)))
  {
    ghost var column, points := Column(nafs, j), TablePoints(tables);
    r := acc;
    for i := 0 to |tables|
      invariant r == Add(acc, LinearCombination(column[..i], points[..i]))
    {
      var t := nafs[i][j];
      r := FoldDigit(r, tables[i], size, t);
      LinearCombinationExtend(column, points, i);
    }
    assert column[..|tables|] == column && points[..|tables|] == points;
  }

  /** Some pair names a table past the end with a nonzero digit at position j. */
  ghost predicate MissingTableAt(pairs: seq<(nat, int)>, nafs: seq<seq<int>>, tableCount: nat, j: nat)
  {
    exists i :: 0 <= i < |pairs| && i < |nafs| && j < |nafs[i]| && pairs[i].0 >= tableCount && nafs[i][j] != 0
  }

  /** No pair past the end of the tables has a nonzero digit at any of the
      positions from j upwards. */
  ghost predicate NoMissingTableFrom(pairs: seq<(nat, int)>, nafs: seq<seq<int>>, tableCount: nat, j: nat)
    decreases NAF_LEN - j
  {
    j >= NAF_LEN || (!MissingTableAt(pairs, nafs, tableCount, j) && NoMissingTableFrom(pairs, nafs, tableCount, j + 1))
  }

  /** Some pair names a table past the end with a nonzero scalar: the loop
      will index `static_lookup_tables` out of bounds. A pair with a zero
      scalar has only zero digits and never reaches the lookup. */
  predicate ReachesMissingTable(pairs: seq<(nat, int)>, tableCount: nat)
  {
    exists i :: 0 <= i < |pairs| && pairs[i].0 >= tableCount && pairs[i].1 != 0
  }

  /** A pair past the end of the tables with a nonzero digit somewhere has a
      nonzero scalar. */
  lemma MissingTableReached(pairs: seq<(nat, int)>, nafs: seq<seq<int>>, tableCount: nat, j: nat)
    requires |nafs| == |pairs| && WellFormedNafs(nafs)
    requires forall i :: 0 <= i < |pairs| ==> Value(nafs[i]) == pairs[i].1
    requires MissingTableAt(pairs, nafs, tableCount, j)
    ensures ReachesMissingTable(pairs, tableCount)
  {
    var i :| 0 <= i < |pairs| && i < |nafs| && j < |nafs[i]| && pairs[i].0 >= tableCount && nafs[i][j] != 0;
    NonzeroDigitValue(nafs[i], j);
  }

  /** If no pair past the end of the tables has a nonzero digit at any
      position, no pair past the end has a nonzero scalar. */
  lemma MissingTableNeverReached(pairs: seq<(nat, int)>, nafs: seq<seq<int>>, tableCount: nat)
    requires |nafs| == |pairs| && WellFormedNafs(nafs)
    requires forall i :: 0 <= i < |pairs| ==> Value(nafs[i]) == pairs[i].1
    requires NoMissingTableFrom(pairs, nafs, tableCount, 0)
    ensures !ReachesMissingTable(pairs, tableCount)
  {
    forall i | 0 <= i < |pairs| && pairs[i].0 >= tableCount
      ensures pairs[i].1 == 0
    {
      forall u | 0 <= u < |nafs[i]| ensures nafs[i][u] == 0 {
        NoMissingTableAt(pairs, nafs, tableCount, 0, u);
      }
      ZeroDigitsValue(nafs[i]);
    }
  }

  lemma {:induction false} NoMissingTableAt(pairs: seq<(nat, int)>, nafs: seq<seq<int>>, tableCount: nat, j: nat, u: nat)
    requires NoMissingTableFrom(pairs, nafs, tableCount, j)
    requires j <= u < NAF_LEN
    ensures !MissingTableAt(pairs, nafs, tableCount, u)
    decreases u - j
  {
    if j < u {
      NoMissingTableAt(pairs, nafs, tableCount, j + 1, u);
    }
  }

  /** The inner loop of the subset variant at digit position j: digit j of
      pair i is folded in with the table the pair's index names. The table is
      indexed only for a nonzero digit, so an index past the end aborts
      exactly when its digit here is nonzero. */
  method AddSubsetColumn(acc: Point, pairs: seq<(nat, Scalar)>, nafs: seq<seq<int>>,
                         tables: seq<NafLookupTable>, j: nat)
    returns (r: Outcome<Point>)
    requires |nafs| == |pairs| && WellFormedNafs(nafs) && j < NAF_LEN
    requires AreTables(tables, TABLE8_SIZE)
    ensures r.Panicked? <==> MissingTableAt(pairs, nafs, |tables|, j)
    ensures r.Panicked? ==> r.panic == IndexOutOfBounds
    ensures r.Returned? ==>
      r.value == Add(acc, LinearCombination(Column(nafs, j), PairPoints(pairs, TablePoints(tables))))
  {
    ghost var column, points := Column(nafs, j), PairPoints(pairs, TablePoints(tables));
    var sp := |tables|;
    var R := acc;
    for i := 0 to |pairs|
      invariant R == Add(acc, LinearCombination(column[..i], points[..i]))
      invariant forall k :: 0 <= k < i && pairs[k].0 >= sp ==> nafs[k][j] == 0
    {
      var baseIdx := pairs[i].0;
      var t := nafs[i][j];
      ghost var before := R;
      if t != 0 {
        if baseIdx >= sp {
          return Panicked(IndexOutOfBounds);
        }
        R := FoldDigit(R, tables[baseIdx], TABLE8_SIZE, t);
      }
      assert R == Add(before, Mul(column[i], points[i]));
      LinearCombinationExtend(column, points, i);
    }
    assert column[..|pairs|] == column && points[..|pairs|] == points;
    r := Returned(R);
  }

  datatype VartimePrecomputedStraus = VartimePrecomputedStraus(staticLookupTables: seq<NafLookupTable>)
  {
    /** Holds of every value `New` builds; the field is private in the source. */
    ghost predicate Valid()
    {
      AreTables(staticLookupTables, TABLE8_SIZE)
    }

    ghost function StaticPoints(): seq<Point>
      requires Valid()
    {
      TablePoints(staticLookupTables)
    }

    /** `new`: table i is the width-8 table of static point i. */
    static function New(staticPoints: seq<Point>): (s: VartimePrecomputedStraus)
      ensures s.Valid()
      ensures |s.staticLookupTables| == |staticPoints|
      ensures s.StaticPoints() == staticPoints
    {
      VartimePrecomputedStraus(StaticLookupTables(staticPoints))
    }

    /** `optional_mixed_multiscalar_mul`: the sum of k*P over the dynamic and
        the static terms, or None when a dynamic point is absent. */
    method OptionalMixedMultiscalarMul(staticScalars: seq<Scalar>, dynamicScalars: seq<Scalar>,
                                       dynamicPoints: seq<Option<Point>>, naf: Scalar -> seq<int>)
      returns (r: Outcome<Option<Point>>)
      requires Valid()
      requires IsNafEncoder(naf)
      ensures !AllPresent(dynamicPoints) ==> r == Returned(None)
      ensures AllPresent(dynamicPoints) && |staticScalars| != |staticLookupTables|
        ==> r == Panicked(StaticLengthMismatch)
      ensures AllPresent(dynamicPoints) && |staticScalars| == |staticLookupTables|
              && |dynamicScalars| != |dynamicPoints|
        ==> r == Panicked(DynamicLengthMismatch)
      ensures AllPresent(dynamicPoints) && |staticScalars| == |staticLookupTables|
              && |dynamicScalars| == |dynamicPoints|
        ==> r == Returned(Some(Add(LinearCombination(dynamicScalars, Unwrapped(dynamicPoints)),
                                   LinearCombination(staticScalars, StaticPoints()))))
    {
      var staticNafs := EncodeAll(staticScalars, naf);
      var dynamicNafs := EncodeAll(dynamicScalars, naf);

      var collected := CollectDynamicTables(dynamicPoints);
      if collected.None? {
        return Returned(None);
      }
      var dynamicLookupTables := collected.value;

      var sp := |staticLookupTables|;
      var dp := |dynamicLookupTables|;
      if sp != |staticNafs| {
        return Panicked(StaticLengthMismatch);
      }
      if dp != |dynamicNafs| {
        return Panicked(DynamicLengthMismatch);
      }

      ghost var staticPoints, dynamicPointValues := StaticPoints(), Unwrapped(dynamicPoints);
      HighPartsCombinationEnds(dynamicNafs, dynamicScalars, dynamicPointValues);
      HighPartsCombinationEnds(staticNafs, staticScalars, staticPoints);

      var S := Identity();
      for j := NAF_LEN downto 0
        invariant S == Add(LinearCombination(HighParts(dynamicNafs, j), dynamicPointValues),
                           LinearCombination(HighParts(staticNafs, j), staticPoints))
      {
        var R := Double(S);
        R := AddColumn(R, dynamicNafs, dynamicLookupTables, TABLE5_SIZE, j);
        R := AddColumn(R, staticNafs, staticLookupTables, TABLE8_SIZE, j);
        HighPartsCombinationStep(dynamicNafs, dynamicPointValues, j);
        HighPartsCombinationStep(staticNafs, staticPoints, j);
        S := R;
      }

      r := Returned(Some(S));
    }
  }

  datatype VartimePrecomputedSubsetStraus = VartimePrecomputedSubsetStraus(staticLookupTables: seq<NafLookupTable>)
  {
    /** Holds of every value `New` builds; the field is private in the source. */
    ghost predicate Valid()
    {
      AreTables(staticLookupTables, TABLE8_SIZE)
    }

    ghost function StaticPoints(): seq<Point>
      requires Valid()
    {
      TablePoints(staticLookupTables)
    }

    /** `new`: table i is the width-8 table of static point i. */
    static function New(staticPoints: seq<Point>): (s: VartimePrecomputedSubsetStraus)
      ensures s.Valid()
      ensures |s.staticLookupTables| == |staticPoints|
      ensures s.StaticPoints() == staticPoints
    {
      VartimePrecomputedSubsetStraus(StaticLookupTables(staticPoints))
    }

    /** `vartime_subset_multiscalar_mul`: the sum of k*P[index] over the
        (index, scalar) pairs. Duplicate indices are accepted and add up. */
    method VartimeSubsetMultiscalarMul(staticScalars: seq<(nat, Scalar)>, naf: Scalar -> seq<int>)
      returns (r: Outcome<Point>)
      requires Valid()
      requires IsNafEncoder(naf)
      ensures |staticScalars| > |staticLookupTables| ==> r == Panicked(SubsetTooLarge)
      ensures |staticScalars| <= |staticLookupTables| && ReachesMissingTable(staticScalars, |staticLookupTables|)
        ==> r == Panicked(IndexOutOfBounds)
      ensures |staticScalars| <= |staticLookupTables| && !ReachesMissingTable(staticScalars, |staticLookupTables|)
        ==> r == Returned(SubsetCombination(staticScalars, StaticPoints()))
    {
      var staticScalarsVals := seq(|staticScalars|, i requires 0 <= i < |staticScalars| => staticScalars[i].1);
      var numScalars := |staticScalars|;

      var staticNafs := EncodeAll(staticScalarsVals, naf);

      var sp := |staticLookupTables|;
      if numScalars > sp {
        return Panicked(SubsetTooLarge);
      }

      ghost var termPoints := PairPoints(staticScalars, StaticPoints());
      HighPartsCombinationEnds(staticNafs, staticScalarsVals, termPoints);

      var S := Identity();
      for j := NAF_LEN downto 0
        invariant S == LinearCombination(HighParts(staticNafs, j), termPoints)
        invariant NoMissingTableFrom(staticScalars, staticNafs, sp, j)
      {
        var R := Double(S);
        var column := AddSubsetColumn(R, staticScalars, staticNafs, staticLookupTables, j);
        if column.Panicked? {
          MissingTableReached(staticScalars, staticNafs, sp, j);
          return column;
        }
        R := column.value;
        HighPartsCombinationStep(staticNafs, termPoints, j);
        S := R;
      }

      MissingTableNeverReached(staticScalars, staticNafs, sp);
      SubsetAsLinearCombination(staticScalars, StaticPoints());
      assert PairScalars(staticScalars) == staticScalarsVals;
      r := Returned(S);
    }
  }
}
