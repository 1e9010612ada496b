/** The order service's fraud check: a deposit above 100000 is refused. */
module OrderFraudCheck {
  import opened Pojos

  /** The largest amount that passes; the comparison is strict. */
  const LIMIT: real := 100000.0

  /** `checkForFraud(depositDetail)`. */
  function CheckForFraud(depositDetail: DepositDetail): (r: FraudCheckResult)
    ensures r.result == Fail <==> depositDetail.amount > LIMIT
    ensures r.reason == if r.result == Fail then "Amount too large" else "All good!"
  {
    if depositDetail.amount > LIMIT then FraudCheckResult(Fail, "Amount too large")
    else FraudCheckResult(Pass, "All good!")
  }

  /** Refusal is monotone in the amount: once an amount is refused, every
      larger amount is too. */
  lemma FailsAbove(d: DepositDetail, e: DepositDetail)
    requires CheckForFraud(d).result == Fail && d.amount <= e.amount
    ensures CheckForFraud(e) == CheckForFraud(d)
  {
  }
}

/** The payment service's fraud check: the same rule as the order
    service's, with the pass reason "All good". */
module PaymentFraudCheck {
  import opened Pojos

  const LIMIT: real := 100000.0

  /** `checkForFraud(depositDetail)`. */
  function CheckForFraud(depositDetail: DepositDetail): (r: FraudCheckResult)
    ensures r.result == Fail <==> depositDetail.amount > LIMIT
    ensures r.reason == if r.result == Fail then "Amount too large" else "All good"
  {
    if depositDetail.amount > LIMIT then FraudCheckResult(Fail, "Amount too large")
    else FraudCheckResult(Pass, "All good")
  }

  lemma FailsAbove(d: DepositDetail, e: DepositDetail)
    requires CheckForFraud(d).result == Fail && d.amount <= e.amount
    ensures CheckForFraud(e) == CheckForFraud(d)
  {
  }
}
