/**
 * ComputeDistance.distanceBetween: the "layer" (Chebyshev) distance between two
 * locations, the larger of the horizontal and the vertical coordinate differences.
 */
module Distances {

  function Abs(n: int): nat { if n < 0 then -n else n }

  function Max(a: nat, b: nat): nat { if a >= b then a else b }

  /** The distance between (x1, y1) and (x2, y2); nothing else about a location is read. */
  function Between(x1: int, y1: int, x2: int, y2: int): nat
  {
    Max(Abs(x1 - x2), Abs(y1 - y2))
  }

  /** The distance bounds both coordinate differences and equals one of them: it is their maximum. */
  lemma BetweenIsMaximum(x1: int, y1: int, x2: int, y2: int)
    ensures Abs(x1 - x2) <= Between(x1, y1, x2, y2) && Abs(y1 - y2) <= Between(x1, y1, x2, y2)
    ensures Between(x1, y1, x2, y2) == Abs(x1 - x2) || Between(x1, y1, x2, y2) == Abs(y1 - y2)
  {
  }

  lemma Symmetric(x1: int, y1: int, x2: int, y2: int)
    ensures Between(x1, y1, x2, y2) == Between(x2, y2, x1, y1)
  {
  }

  /** The distance is 0 exactly when both coordinates agree. */
  lemma ZeroIffSame(x1: int, y1: int, x2: int, y2: int)
    ensures Between(x1, y1, x2, y2) == 0 <==> x1 == x2 && y1 == y2
  {
  }

  lemma Triangle(x1: int, y1: int, x2: int, y2: int, x3: int, y3: int)
    ensures Between(x1, y1, x3, y3) <= Between(x1, y1, x2, y2) + Between(x2, y2, x3, y3)
  {
  }
}
