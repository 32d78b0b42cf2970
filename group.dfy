/** The prime-order curve group, seen only through its group operations.

    The library keeps a point in four coordinate systems (projective,
    extended, completed, and the affine/projective Niels forms used inside
    lookup tables). They differ in the cost of each operation, never in the
    point they denote, so this model has one point type and the conversions
    between representations are the identity. The group itself is modelled
    as the integers under addition: every identity about linear combinations
    that holds there for all points holds in any commutative group. */
module Group {

  type Point = int

  /** The neutral element (`ProjectivePoint::identity()`). */
  function Identity(): Point { 0 }

  function Add(p: Point, q: Point): Point { p + q }

  function Neg(p: Point): Point { -p }

  function Sub(p: Point, q: Point): Point { Add(p, Neg(q)) }

  /** Point doubling (`ProjectivePoint::double`). */
  function Double(p: Point): Point { Add(p, p) }

  /** The scalar multiple k*P, by repeated addition or subtraction of P. */
  function Mul(k: int, p: Point): Point
    decreases if k < 0 then -k else k
  {
    if k == 0 then Identity()
    else if k > 0 then Add(Mul(k - 1, p), p)
    else Sub(Mul(k + 1, p), p)
  }

  /** (k + 1)P = kP + P, for negative k as well. */
  lemma MulSucc(k: int, p: Point)
    ensures Mul(k + 1, p) == Add(Mul(k, p), p)
  {
  }

  /** Scalar multiplication distributes over the sum of scalars. */
  lemma {:induction false} MulAdd(a: int, b: int, p: Point)
    ensures Mul(a + b, p) == Add(Mul(a, p), Mul(b, p))
    decreases if b < 0 then -b else b
  {
    if b > 0 {
      MulAdd(a, b - 1, p);
      MulSucc(a + b - 1, p);
    } else if b < 0 {
      MulAdd(a, b + 1, p);
      MulSucc(a + b, p);
    }
  }

  /** (-k)P is the inverse of kP. */
  lemma MulNeg(k: int, p: Point)
    ensures Mul(-k, p) == Neg(Mul(k, p))
  {
    MulAdd(k, -k, p);
  }

  /** Every multiple of the identity is the identity. */
  lemma {:induction false} MulIdentity(k: int)
    ensures Mul(k, Identity()) == Identity()
    decreases if k < 0 then -k else k
  {
    if k > 0 {
      MulIdentity(k - 1);
    } else if k < 0 {
      MulIdentity(k + 1);
    }
  }

  /** (a + 2b)P = aP + 2(bP): one step of double-and-add. */
  lemma MulDoubleAndAdd(a: int, b: int, p: Point)
    ensures Mul(a + 2 * b, p) == Add(Mul(a, p), Double(Mul(b, p)))
  {
    MulAdd(a, 2 * b, p);
    MulAdd(b, b, p);
  }
}
