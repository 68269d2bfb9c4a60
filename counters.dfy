/**
 * The two ways the entities step a counter down without going below zero:
 * `if ($n > 0) $n--;` (Tag) and `$n = max(0, $n - 1);` (ForumThread,
 * ForumCategory), and the floor that UserCurrency::subtractAmount() applies.
 */
module Counters {

  /** `if ($n > 0) { $n--; }`: a count that is not positive is left as it is. */
  function DecrementIfPositive(n: int): (m: int)
    ensures n > 0 ==> m == n - 1
    ensures n <= 0 ==> m == n
  {
    if n > 0 then n - 1 else n
  }

  /** `max(0, $n - 1)`: one less, but never below zero. */
  function FloorDecrement(n: int): (m: int)
    ensures m >= 0
    ensures n >= 1 ==> m == n - 1
    ensures n < 1 ==> m == 0
  {
    if n - 1 > 0 then n - 1 else 0
  }

  /** `max(0, $amount - $x)`. */
  function FloorSubtract(amount: int, x: int): (r: int)
    ensures r >= 0
    ensures amount - x >= 0 ==> r == amount - x
    ensures amount - x < 0 ==> r == 0
  {
    if amount - x > 0 then amount - x else 0
  }

  /**
   * On a count that has never been negative the two decrements agree, they
   * undo an increment, and they keep the count non-negative.
   */
  lemma DecrementsAgree(n: int)
    requires n >= 0
    ensures DecrementIfPositive(n) == FloorDecrement(n) >= 0
    ensures DecrementIfPositive(n + 1) == n && FloorDecrement(n + 1) == n
  {
  }

  /** A decrement takes one off exactly when the count is positive. */
  lemma DecrementIsExactWhenPositive(n: int)
    ensures n > 0 <==> DecrementIfPositive(n) == n - 1
    ensures n > 0 <==> FloorDecrement(n) == n - 1
  {
  }

  /** On a negative count the two differ: max() repairs it to zero, the guard leaves it. */
  lemma DecrementsDifferBelowZero(n: int)
    requires n < 0
    ensures DecrementIfPositive(n) == n && FloorDecrement(n) == 0
  {
  }

  /** Subtracting a non-negative amount never raises a balance that was non-negative. */
  lemma FloorSubtractBounds(amount: int, x: int)
    requires amount >= 0 && x >= 0
    ensures 0 <= FloorSubtract(amount, x) <= amount
    ensures FloorSubtract(FloorSubtract(amount, x), 0) == FloorSubtract(amount, x)
  {
  }
}
