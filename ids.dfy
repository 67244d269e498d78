/** The static "next id" counters of Patient, Payment and Procedure. Each is
    a Java int that an auto-id constructor reads and then increments with ++,
    and that setUniqueID overwrites. */
module Ids {

  const MinInt32: int := -0x8000_0000
  const MaxInt32: int := 0x7fff_ffff

  /** The values of a Java int. */
  type Int32 = x: int | MinInt32 <= x <= MaxInt32

  /** The int ++ operator: one more, wrapping from the largest int to the
      smallest. */
  function Inc32(n: Int32): (r: Int32)
    ensures n < MaxInt32 ==> r == n + 1
    ensures n == MaxInt32 ==> r == MinInt32
    ensures (r - n - 1) % 0x1_0000_0000 == 0
  {
    if n == MaxInt32 then MinInt32 else n + 1
  }

  /** One class's static counter. */
  class IdCounter {
    var next: Int32

    /** The counter as the class initialiser leaves it. */
    constructor ()
      ensures next == 1
    {
      next := 1;
    }

    /** setUniqueID: the next auto-id object gets `id`. */
    method SetUniqueID(id: Int32)
      modifies this
      ensures next == id
    {
      next := id;
    }

    /** Takes the current value for a new object and advances the counter. */
    method Take() returns (id: Int32)
      modifies this
      ensures id == old(next) && next == Inc32(old(next))
    {
      id := next;
      next := Inc32(next);
    }
  }

  /** After k auto-id constructions from `start`, short of the largest int,
      the counter has advanced by exactly k, so the ids handed out were
      start, start + 1, ..., start + k - 1, all different. */
  lemma {:induction false} IterateNoWrap(start: Int32, k: nat)
    requires start + k <= MaxInt32
    ensures Iterate(start, k) == start + k
  {
    if k > 0 {
      IterateNoWrap(start, k - 1);
    }
  }

  /** The counter after k auto-id constructions. */
  function Iterate(start: Int32, k: nat): Int32 {
    if k == 0 then start else Inc32(Iterate(start, k - 1))
  }
}
