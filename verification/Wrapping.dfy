/** Two's-complement integers of any width. */
module Wrapping {

  /** The signed integer of `2 * half` values that `x` wraps to. */
  function Wrap(x: int, half: int): (w: int)
    requires 0 < half
    ensures -half <= w < half
  {
    (x + half) % (2 * half) - half
  }

  lemma WrapFits(x: int, half: int)
    requires 0 < half && -half <= x < half
    ensures Wrap(x, half) == x
  {
    var m := 2 * half;
    var y := x + half;
    assert y == (y / m) * m + y % m;
    SmallMultiple(y / m, m);
  }

  lemma SmallMultiple(d: int, m: int)
    requires 0 < m && -m < d * m < m
    ensures d == 0
  {
  }

  /** Values that differ by a multiple of the modulus wrap to the same integer. */
  lemma WrapShift(x: int, k: int, half: int)
    requires 0 < half
    ensures Wrap(x + k * (2 * half), half) == Wrap(x, half)
  {
    var m := 2 * half;
    var (y, z) := (x + half, x + half + k * m);
    assert y == (y / m) * m + y % m && z == (z / m) * m + z % m;
    assert (z / m - y / m - k) * m == y % m - z % m;
    SmallMultiple(z / m - y / m - k, m);
  }

  lemma WrapOffset(x: int, half: int) returns (k: int)
    requires 0 < half
    ensures Wrap(x, half) == x - k * (2 * half)
  {
    k := (x + half) / (2 * half);
  }

  /** Wrapping in between does not matter. */
  lemma WrapSteps(x: int, y: int, half: int)
    requires 0 < half
    ensures Wrap(Wrap(x, half) + y, half) == Wrap(x + y, half)
    ensures Wrap(-Wrap(x, half), half) == Wrap(-x, half)
  {
    hide Wrap;
    var k := WrapOffset(x, half);
    WrapShift(x + y, -k, half);
    WrapShift(-x, k, half);
    assert (-k) * (2 * half) == -(k * (2 * half));
  }
}
