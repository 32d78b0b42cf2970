/** Lookup tables of odd multiples of a point (`NafLookupTable5`,
    `NafLookupTable8`). The table for P holds 1P, 3P, 5P, ... and is read
    with a positive odd digit x at position x / 2. */
module Window {
  import opened Group

  /** Entries of a width-5 table: 1P, 3P, ..., 15P. */
  const TABLE5_SIZE: nat := 8

  /** Entries of a width-8 table: 1P, 3P, ..., 127P. */
  const TABLE8_SIZE: nat := 64

  datatype NafLookupTable = NafLookupTable(entries: seq<Point>)
  {
    /** This is the table of `size` odd multiples of p. */
    ghost predicate IsTableOf(p: Point, size: nat)
    {
      |entries| == size && forall k :: 0 <= k < size ==> entries[k] == Mul(2 * k + 1, p)
    }

    /** A nonempty table of odd multiples of its own first entry. */
    ghost predicate IsTable(size: nat)
    {
      0 < size && |entries| == size && IsTableOf(entries[0], size)
    }

    /** The point the table was built from. */
    ghost function Base(): Point
      requires 0 < |entries|
    {
      entries[0]
    }

    /** `select(x)` for a positive odd digit x: on a table of odd multiples
        it yields x times the table's point. */
    function Select(x: nat): (r: Point)
      requires x % 2 == 1 && x / 2 < |entries|
      ensures IsTable(|entries|) ==> r == Mul(x, Base())
    {
      assert 2 * (x / 2) + 1 == x;
      entries[x / 2]
    }
  }

  /** The ladder that builds a table: starting from P, each entry is the
      previous one plus 2P. */
  function OddMultiples(p: Point, n: nat): (r: seq<Point>)
    ensures |r| == n
    ensures forall k :: 0 <= k < n ==> r[k] == Mul(2 * k + 1, p)
  {
    if n == 0 then []
    else if n == 1 then [p]
    else
      var prev := OddMultiples(p, n - 1);
      MulDoubleAndAdd(2 * (n - 2) + 1, 1, p);
      prev + [Add(prev[n - 2], Double(p))]
  }

  /** `NafLookupTable*::from(&P)`. */
  function TableFrom(p: Point, size: nat): (t: NafLookupTable)
    requires 0 < size
    ensures t.IsTable(size) && t.Base() == p
  {
    NafLookupTable(OddMultiples(p, size))
  }

  /** Reading the table with a positive digit x yields x*P; subtracting the
      entry for -x from an accumulator adds x*P for a negative digit x. */
  lemma SelectSigned(t: NafLookupTable, size: nat, acc: Point, x: int)
    requires t.IsTable(size)
    requires x != 0 && x % 2 == 1 && -2 * size < x < 2 * size
    ensures x > 0 ==> Add(acc, t.Select(x)) == Add(acc, Mul(x, t.Base()))
    ensures x < 0 ==> Sub(acc, t.Select(-x)) == Add(acc, Mul(x, t.Base()))
  {
    if x > 0 {
      assert 2 * (x / 2) + 1 == x;
    } else {
      assert (-x) % 2 == 1;
      assert 2 * ((-x) / 2) + 1 == -x;
      MulNeg(x, t.Base());
    }
  }
}
