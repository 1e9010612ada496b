/** The order service's demonstration workers: `fraud-check-nb`, which
    hands a deposit to the fraud check, and `retrieve-deposit-batch-nb`,
    which makes up a batch of deposits. */
module ConductorWorkers {
  import opened Jdk
  import opened Pojos
  import OrderFraudCheck

  /** Task `fraud-check-nb`: the order service's fraud verdict, unchanged. */
  function CheckForFraudTask(depositDetail: DepositDetail): (r: FraudCheckResult)
    ensures r == OrderFraudCheck.CheckForFraud(depositDetail)
    ensures r.result == Fail <==> depositDetail.amount > OrderFraudCheck.LIMIT
    ensures r.reason == if depositDetail.amount > OrderFraudCheck.LIMIT then "Amount too large" else "All good!"
  {
    OrderFraudCheck.CheckForFraud(depositDetail)
  }

  /** The most deposits a batch holds. */
  const MAX_BATCH := 100

  /** Deposit `i` of a batch: account `acc-id-` followed by the decimal
      numeral of `i`, amount `1500 * i`. */
  function Deposit(i: nat): (d: DepositDetail)
    ensures |d.accountId| > 7 && d.accountId[..7] == "acc-id-"
    ensures forall k :: 7 <= k < |d.accountId| ==> '0' <= d.accountId[k] <= '9'
    ensures Value(d.accountId[7..]) == i
    ensures d.accountId[7] == '0' ==> i == 0 && |d.accountId| == 8
    ensures d.amount == (1500 * i) as real
  {
    var id := "acc-id-" + Decimal(i);
    assert id[7..] == Decimal(i);
    DecimalValue(i);
    DepositDetail(id, (i * 1500) as real)
  }

  /** Task `retrieve-deposit-batch-nb`. `batchCount` is the optional input;
      `draw` stands for the pseudo-random `nextInt(5, 11)`, which is drawn,
      and so constrained, only when `batchCount` is absent. The batch has
      `min(100, batchCount)` deposits, none when that is not positive, and
      deposit `i` is for account `acc-id-i` with amount `1500 * i`. */
  function RetrieveDepositBatch(batchCount: Optional<int>, draw: int): (batch: seq<DepositDetail>)
    requires batchCount.Empty? ==> 5 <= draw < 11
    ensures batchCount.Present? && batchCount.value <= 0 ==> batch == []
    ensures batchCount.Present? && batchCount.value > 0 ==>
      |batch| == if batchCount.value < MAX_BATCH then batchCount.value else MAX_BATCH
    ensures batchCount.Empty? ==> |batch| == draw
    ensures |batch| <= MAX_BATCH
    ensures forall i :: 0 <= i < |batch| ==> batch[i] == Deposit(i)
  {
    var count := if batchCount.Present? then batchCount.value else draw;
    var capped := if MAX_BATCH < count then MAX_BATCH else count;
    if capped <= 0 then [] else seq(capped, i requires 0 <= i => Deposit(i))
  }

  /** No two deposits of a batch share an account id. */
  lemma AccountIdsDistinct(batchCount: Optional<int>, draw: int, i: nat, j: nat)
    requires batchCount.Empty? ==> 5 <= draw < 11
    requires i < j < |RetrieveDepositBatch(batchCount, draw)|
    ensures RetrieveDepositBatch(batchCount, draw)[i].accountId
         != RetrieveDepositBatch(batchCount, draw)[j].accountId
  {
  }

  /** Amounts start at 0 and strictly increase along a batch. */
  lemma AmountsIncrease(batchCount: Optional<int>, draw: int)
    requires batchCount.Empty? ==> 5 <= draw < 11
    ensures var batch := RetrieveDepositBatch(batchCount, draw);
      && (batch != [] ==> batch[0].amount == 0.0)
      && forall i, j :: 0 <= i < j < |batch| ==> batch[i].amount < batch[j].amount
  {
  }
}
