/** Positions on the chain (the repository's SteemOperationNumber): a block
    number, the transaction's index in that block and the operation's index in
    that transaction, ordered lexicographically. */
module Moments {

  datatype Moment = Moment(blockNum: nat, transactionNum: nat, operationNum: nat)

  /** `a.isLesserThan(b)`: a comes strictly earlier on the chain than b. */
  predicate IsLesserThan(a: Moment, b: Moment)
  {
    || a.blockNum < b.blockNum
    || (a.blockNum == b.blockNum && a.transactionNum < b.transactionNum)
    || (a.blockNum == b.blockNum && a.transactionNum == b.transactionNum && a.operationNum < b.operationNum)
  }

  /** `a.isEqual(b)`: all three indices agree. */
  predicate IsEqual(a: Moment, b: Moment)
  {
    a.blockNum == b.blockNum && a.transactionNum == b.transactionNum && a.operationNum == b.operationNum
  }

  /** `a.isGreaterThan(b)`: a comes strictly later on the chain than b. */
  predicate IsGreaterThan(a: Moment, b: Moment)
  {
    IsLesserThan(b, a)
  }

  /** Exactly one of lesser, equal and greater holds, and equality of
      moments is structural. */
  lemma Trichotomy(a: Moment, b: Moment)
    ensures IsEqual(a, b) <==> a == b
    ensures IsLesserThan(a, b) || IsEqual(a, b) || IsGreaterThan(a, b)
    ensures !(IsLesserThan(a, b) && IsEqual(a, b))
    ensures !(IsLesserThan(a, b) && IsGreaterThan(a, b))
    ensures !(IsEqual(a, b) && IsGreaterThan(a, b))
  {
  }

  /** The order is transitive. */
  lemma LesserThanTransitive(a: Moment, b: Moment, c: Moment)
    requires IsLesserThan(a, b) && IsLesserThan(b, c)
    ensures IsLesserThan(a, c)
  {
  }
}
