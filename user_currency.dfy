/**
 * UserCurrency: one balance of a user, per currency type. Subtracting never
 * takes a balance below zero; setting and adding are unchecked.
 */
module UserCurrencies {
  import opened Counters

  class UserCurrency {
    var userId: int
    var currencyType: int
    var amount: int

    /** A new balance: the amount column defaults to 0. */
    constructor (userId: int, currencyType: int)
      ensures this.userId == userId && this.currencyType == currencyType && amount == 0
    {
      this.userId := userId;
      this.currencyType := currencyType;
      amount := 0;
    }

    /** setAmount(). */
    method SetAmount(newAmount: int)
      modifies this
      ensures amount == newAmount
      ensures userId == old(userId) && currencyType == old(currencyType)
    {
      amount := newAmount;
    }

    /** addAmount(): any integer, negative ones included. */
    method AddAmount(delta: int)
      modifies this
      ensures amount == old(amount) + delta
      ensures userId == old(userId) && currencyType == old(currencyType)
    {
      amount := amount + delta;
    }

    /** subtractAmount(): max(0, amount - x). */
    method SubtractAmount(x: int)
      modifies this
      ensures amount == FloorSubtract(old(amount), x)
      ensures amount >= 0
      ensures userId == old(userId) && currencyType == old(currencyType)
    {
      amount := if amount - x > 0 then amount - x else 0;
    }
  }

  /**
   * Adding and then subtracting the same non-negative amount gives the
   * balance back when it was not negative; subtracting more than the balance
   * empties it.
   */
  lemma AddThenSubtract(amount: int, x: int)
    requires amount >= 0 && x >= 0
    ensures FloorSubtract(amount + x, x) == amount
    ensures x >= amount ==> FloorSubtract(amount, x) == 0
  {
  }
}
