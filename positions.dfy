/**
 * Grid coordinates and the Chebyshev metric (src/cell/cell.rs).
 *
 * The source keeps a position as the pair `(y, x)`: `.0` is the row and `.1`
 * the column. Distances are computed through `as i32` casts, so they agree
 * with the mathematical metric only while both coordinates are below 2^31.
 */
module Positions {
  import opened Common

  /** One more than the largest `i32`. */
  const I32_LIMIT: nat := 0x8000_0000

  /** One more than the largest `u32`. */
  const U32_LIMIT: nat := 0x1_0000_0000

  /** The `as i32` cast of a `u32`: values from 2^31 on wrap to negatives. */
  function AsI32(u: nat): int
    requires u < U32_LIMIT
  {
    if u < I32_LIMIT then u else u - U32_LIMIT
  }

  /** The reference metric of 8-connected unit-cost movement. */
  function Chebyshev(a: Position, b: Position): nat
  {
    Max(Abs(a.x - b.x), Abs(a.y - b.y))
  }

  datatype Position = Position(y: nat, x: nat) {

    /** Both coordinates survive the `as i32` casts unchanged. */
    predicate FitsI32()
    {
      y < I32_LIMIT && x < I32_LIMIT
    }

    /**
     * `Position::distance`: the larger of the absolute differences, computed
     * on the `i32` casts of the coordinates. Inside the `i32` range it is the
     * Chebyshev distance.
     */
    function Distance(other: Position): (d: nat)
      requires FitsI32() && other.FitsI32()
      ensures d == Chebyshev(this, other)
      ensures Abs(x - other.x) <= d && Abs(y - other.y) <= d
      ensures d == Abs(x - other.x) || d == Abs(y - other.y)
    {
      Max(Abs(AsI32(x) - AsI32(other.x)), Abs(AsI32(y) - AsI32(other.y)))
    }

    /** `PartialEq for Position`: component-wise equality, which is equality of positions. */
    predicate Equals(other: Position)
      ensures Equals(other) <==> this == other
    {
      x == other.x && y == other.y
    }
  }

  lemma ChebyshevSymmetric(a: Position, b: Position)
    ensures Chebyshev(a, b) == Chebyshev(b, a)
  {
  }

  /** The distance vanishes exactly on equal positions. */
  lemma ChebyshevZero(a: Position, b: Position)
    ensures Chebyshev(a, b) == 0 <==> a == b
  {
  }

  /** The distance dominates each coordinate difference and is dominated by their sum. */
  lemma ChebyshevBounds(a: Position, b: Position)
    ensures Abs(a.x - b.x) <= Chebyshev(a, b) && Abs(a.y - b.y) <= Chebyshev(a, b)
    ensures Chebyshev(a, b) <= Abs(a.x - b.x) + Abs(a.y - b.y)
  {
  }

  lemma ChebyshevTriangle(a: Position, b: Position, c: Position)
    ensures Chebyshev(a, c) <= Chebyshev(a, b) + Chebyshev(b, c)
  {
  }

  /** Consecutive positions of `ps` are one king's move apart. */
  ghost predicate IsWalk(ps: seq<Position>)
  {
    forall i | 0 <= i < |ps| - 1 :: Chebyshev(ps[i], ps[i + 1]) == 1
  }

  /** A walk of `n` moves covers a Chebyshev distance of at most `n`. */
  lemma {:induction false} WalkBound(ps: seq<Position>)
    requires |ps| >= 1 && IsWalk(ps)
    ensures Chebyshev(ps[0], ps[|ps| - 1]) <= |ps| - 1
  {
    if |ps| > 1 {
      var rest := ps[1..];
      assert IsWalk(rest) by {
        forall i | 0 <= i < |rest| - 1
          ensures Chebyshev(rest[i], rest[i + 1]) == 1
        {
          assert rest[i] == ps[i + 1] && rest[i + 1] == ps[i + 2];
        }
      }
      WalkBound(rest);
      ChebyshevTriangle(ps[0], ps[1], ps[|ps| - 1]);
    }
  }
}
