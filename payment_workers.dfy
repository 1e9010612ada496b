/** The payment service's `payment-check-nb` worker: it hands a deposit to
    the payment fraud check and reads or writes no state. */
module PaymentWorkers {
  import opened Pojos
  import PaymentFraudCheck

  /** Task `payment-check-nb`: the payment service's fraud verdict, unchanged. */
  function CheckForFraudTask(depositDetail: DepositDetail): (r: FraudCheckResult)
    ensures r == PaymentFraudCheck.CheckForFraud(depositDetail)
    ensures r.result == Fail <==> depositDetail.amount > PaymentFraudCheck.LIMIT
    ensures r.reason == if depositDetail.amount > PaymentFraudCheck.LIMIT then "Amount too large" else "All good"
  {
    PaymentFraudCheck.CheckForFraud(depositDetail)
  }
}
