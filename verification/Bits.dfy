/** Powers of two and `flsl`, which size the deques and heaps and drive the binary search. */
module Bits {

  function Pow2(n: nat): (p: nat)
    ensures 0 < p
  {
    if n == 0 then 1 else 2 * Pow2(n - 1)
  }

  /** The 1-based position of the highest set bit, 0 for 0. */
  function Flsl(c: nat): nat {
    if c == 0 then 0 else 1 + Flsl(c / 2)
  }

  ghost predicate IsPow2(c: nat) { exists n: nat :: c == Pow2(n) }

  lemma {:induction false} FlslBounds(c: nat)
    requires 0 < c
    ensures 0 < Flsl(c) && Pow2(Flsl(c) - 1) <= c < Pow2(Flsl(c))
  {
    if 1 < c {
      FlslBounds(c / 2);
    }
  }

  lemma {:induction false} Pow2Grows(m: nat, n: nat)
    requires m <= n
    ensures Pow2(m) <= Pow2(n)
    decreases n - m
  {
    if m < n {
      Pow2Grows(m, n - 1);
    }
  }

  /** `__CFArrayDequeRoundUpCapacity` and `__CFBinaryHeapRoundUpCapacity`, for capacities below 2^30. */
  function RoundUpCapacity(capacity: nat): nat {
    if capacity < 4 then 4 else Pow2(Flsl(capacity))
  }

  /** The rounded capacity is the least power of two, 4 or more, that is strictly larger. */
  lemma RoundUpBounds(capacity: nat)
    ensures 4 <= RoundUpCapacity(capacity) && capacity < RoundUpCapacity(capacity) && IsPow2(RoundUpCapacity(capacity))
    ensures capacity < 4 ==> RoundUpCapacity(capacity) == 4
    ensures 4 <= capacity ==> RoundUpCapacity(capacity) <= 2 * capacity
    ensures capacity < 0x4000_0000 ==> RoundUpCapacity(capacity) <= 0x4000_0000
  {
    assert Pow2(2) == 4 && IsPow2(4);
    if 4 <= capacity {
      FlslBounds(capacity);
      if Flsl(capacity) < 3 {
        Pow2Grows(Flsl(capacity), 2);
      }
      if capacity < 0x4000_0000 && 30 < Flsl(capacity) {
        Pow2Thirty();
        Pow2Grows(30, Flsl(capacity) - 1);
      }
      Pow2Thirty();
      if Flsl(capacity) <= 30 {
        Pow2Grows(Flsl(capacity), 30);
      }
    }
  }

  lemma Pow2Thirty()
    ensures Pow2(30) == 0x4000_0000
  {
    assert Pow2(10) == 1024;
    assert Pow2(20) == 1024 * Pow2(10);
    assert Pow2(30) == 1024 * Pow2(20);
  }
}
