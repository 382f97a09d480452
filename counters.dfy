/**
 * The null-tolerant counter updates that Event (participants) and School
 * (students, teachers) share, on boxed Java `Integer`s.
 */
module Counters {

  import opened Wrappers
  import opened JavaInt

  /** `if (c == null) c = 0; c++;` */
  function Incremented(c: Option<Int32>): (r: Int32)
    ensures c.None? ==> r == 1
    ensures c.Some? && c.value < MaxInt ==> r == c.value + 1
    ensures c == Some(MaxInt) ==> r == MinInt
  {
    Add(c.GetOr(0), 1)
  }

  /** `if (c == null || c <= 0) c = 0; else c--;` */
  function Decremented(c: Option<Int32>): (r: Int32)
    ensures r >= 0
    ensures c.Some? && c.value > 0 ==> r == c.value - 1
    ensures c.None? || c.value <= 0 ==> r == 0
  {
    if c.None? || c.value <= 0 then 0 else Sub(c.value, 1)
  }

  /** Decrementing after an increment from a non-negative count restores it. */
  lemma DecrementUndoesIncrement(n: Int32)
    requires 0 <= n < MaxInt
    ensures Decremented(Some(Incremented(Some(n)))) == n
  {
  }
}
