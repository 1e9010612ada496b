/** Values passed between the saga's payment-side workers: a deposit, the
    verdict of a fraud check and the result that carries it. */
module Pojos {

  /** The two outcomes of a check or a task: `PASS` or `FAIL`. */
  datatype Verdict = Pass | Fail

  /** A deposit to an account; the amount is an exact decimal. */
  datatype DepositDetail = DepositDetail(accountId: string, amount: real)

  datatype FraudCheckResult = FraudCheckResult(result: Verdict, reason: string)
}
