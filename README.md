# Saga participants of the learn-microservices purchase demo

This project models the participant side of the saga demo in
`modules/data-management/code/saga-implementation`: the task handlers that
each service (order, inventory, cart, warehouse, purchase, payment) runs
against its own store when the workflow engine hands it a task, the
deposit fraud-check rule, and the deposit-batch generator.

- Each store is a class holding a map from code to row, changed in place by
  the worker methods (`Products.ProductRepository`, `Orders.OrderRepository`,
  `Inventory.InventoryRepository`). Several workers may share one store, as
  the cart's insert and delete workers do.
- Every worker method is proved equal, in its new store and its result, to
  a pure function of the old store and the task (`Products.Insertion`,
  `Products.Deletion`, `Orders.Placement`, `Orders.Removal`,
  `Inventory.Check`). The properties that relate several calls are lemmas
  about those functions: the duplicate guard, idempotent and non-idempotent
  deletes, insert/delete and place/delete round trips, and what the
  inventory loop takes and keeps.
- A Java `String` that may be `null` is `Jdk.Text`. A task's input is a flat
  string mapping; a missing key reads as `Null`. A product table's code column
  is taken to be unique and never null, so a store is keyed by the code's
  characters, a lookup of `Null` finds nothing, and a `save` of a new row with
  a `null` or already stored code is refused; the worker runtime reports that
  exception as a FAILED task.
- `String.split(",")` is `Jdk.Split`, with Java's rules: a string without a
  comma gives itself, so `""` gives one empty id; empty pieces between commas
  are kept; trailing empty pieces are dropped.
- `"acc-id-" + i` uses `Jdk.Decimal`, proved to denote `i`. Amounts
  (`BigDecimal`) are exact and compared by value, so they are `real`.
- The pseudo-random default batch size is the parameter `draw`, constrained to
  what `nextInt(5, 11)` returns.

The saga coordinator that orders these tasks and triggers compensation is an
external workflow server. No workflow definition is part of the source, so
the model has no coordinator state. It only proves the per-task facts a
coordinator would rely on.

Unlike a textbook saga, whose compensations are all idempotent and whose
local steps are atomic, these handlers differ from one another:
- the product delete workers are not idempotent (a second delete fails);
- `deleteOrder` is idempotent;
- `inventoryCheck` keeps the decrements made before an abort.

## Model

| member | source | states |
|---|---|---|
| `Conductor.Input` | modules/data-management/code/saga-implementation/cart-service/src/main/java/com/nbicocchi/cart/worker/CartInsertWorker.java:28 | a task input reads as a string exactly when its key is present, with that key's value; an absent key reads as `null` |
| `Jdk.Split` | modules/data-management/code/saga-implementation/inventory-service/src/main/java/com/nbicocchi/inventory/workers/InventoryWorkers.java:25 | `split(",")`: no comma gives `[s]`. Otherwise the result is a prefix of the comma-separated pieces, empty middle pieces included, and the pieces dropped are exactly the trailing empty ones. No id contains a comma. |
| `Jdk.PiecesHaveNoComma` | modules/data-management/code/saga-implementation/inventory-service/src/main/java/com/nbicocchi/inventory/workers/InventoryWorkers.java:25 | no piece between commas contains a comma |
| `Jdk.JoinPieces` | modules/data-management/code/saga-implementation/inventory-service/src/main/java/com/nbicocchi/inventory/workers/InventoryWorkers.java:25 | joining the pieces with commas gives the string back, so splitting loses only trailing commas |
| `Jdk.DropTrailingEmpty` | modules/data-management/code/saga-implementation/inventory-service/src/main/java/com/nbicocchi/inventory/workers/InventoryWorkers.java:25 | keeps the longest prefix not ending in an empty piece; everything dropped is empty |
| `Jdk.Decimal` | modules/data-management/code/saga-implementation/order-service/src/main/java/com/nbicocchi/order/workers/ConductorWorkers.java:51 | the numeral of `i` in `"acc-id-" + i` is a non-empty string of digits, one digit long exactly below 10, with no leading zero unless it is `"0"`; its value is `i` (`DecimalValue`), so it is the one canonical numeral of `i` |
| `Jdk.DecimalValue` | modules/data-management/code/saga-implementation/order-service/src/main/java/com/nbicocchi/order/workers/ConductorWorkers.java:51 | the numeral `Decimal(n)` read back as a decimal number is `n` |
| `Jdk.DecimalInjective` | modules/data-management/code/saga-implementation/order-service/src/main/java/com/nbicocchi/order/workers/ConductorWorkers.java:51 | different numbers give different numerals |
| `Inventory.Take` | modules/data-management/code/saga-implementation/inventory-service/src/main/java/com/nbicocchi/inventory/workers/InventoryWorkers.java:28-42 | one iteration: a stocked id with quantity > 0 loses exactly one unit; quantity <= 0 aborts with "Inventory empty: id"; a missing id aborts with "Inventory not found: id"; an abort changes nothing |
| `Inventory.Check` | modules/data-management/code/saga-implementation/inventory-service/src/main/java/com/nbicocchi/inventory/workers/InventoryWorkers.java:25-43 | the ids are processed left to right until the first abort; no product is added or removed from the inventory |
| `Inventory.CheckSucceedsIff` | modules/data-management/code/saga-implementation/inventory-service/src/main/java/com/nbicocchi/inventory/workers/InventoryWorkers.java:27-43 | the check completes iff every listed id is in the inventory with at least as many units as it is listed (both directions) |
| `Inventory.CheckTakesCounts` | modules/data-management/code/saga-implementation/inventory-service/src/main/java/com/nbicocchi/inventory/workers/InventoryWorkers.java:24-44 | on success each product drops by its number of occurrences (repeated ids once per occurrence) and every other product is unchanged |
| `Inventory.CheckNeverNegative` | modules/data-management/code/saga-implementation/inventory-service/src/main/java/com/nbicocchi/inventory/workers/InventoryWorkers.java:32-33 | every quantity the check changes ends at zero or above |
| `Inventory.CheckAbortKeepsPrefix` | modules/data-management/code/saga-implementation/inventory-service/src/main/java/com/nbicocchi/inventory/workers/InventoryWorkers.java:27-43 | no rollback: an aborted check stops at some position k. The stock it leaves is that of a successful check of `ids[..k]`, the error is the one for `ids[k]`, and the ids after k are never looked at. |
| `Inventory.CheckAbortKeepsDecrements` | modules/data-management/code/saga-implementation/inventory-service/src/main/java/com/nbicocchi/inventory/workers/InventoryWorkers.java:27-43 | after an abort at position k, each product keeps exactly the decrements for its occurrences before k |
| `Inventory.CountAbsent` | modules/data-management/code/saga-implementation/inventory-service/src/main/java/com/nbicocchi/inventory/workers/InventoryWorkers.java:27 | an id not in the list occurs zero times |
| `Inventory.InventoryRepository.FindInventoriesByProductId` | modules/data-management/code/saga-implementation/inventory-service/src/main/java/com/nbicocchi/inventory/workers/InventoryWorkers.java:28 | finds the quantity of an id exactly when the inventory holds it |
| `Inventory.InventoryRepository.Save` | modules/data-management/code/saga-implementation/inventory-service/src/main/java/com/nbicocchi/inventory/workers/InventoryWorkers.java:33-34 | sets the quantity of one id, changing no other id |
| `Inventory.InventoryWorkers.InventoryCheck` | modules/data-management/code/saga-implementation/inventory-service/src/main/java/com/nbicocchi/inventory/workers/InventoryWorkers.java:24-44 | the loop leaves the inventory and reports the outcome exactly as `Check` does on `Split(productIds)` |
| `Orders.Placement` | modules/data-management/code/saga-implementation/order-service/src/main/java/com/nbicocchi/order/workers/OrderWorkers.java:21-31 | duplicate code: FAIL "Duplicate order", store unchanged. New code: PASS "", order stored under its code. Other codes are unchanged. |
| `Orders.Removal` | modules/data-management/code/saga-implementation/order-service/src/main/java/com/nbicocchi/order/workers/OrderWorkers.java:34-40 | always PASS "". Afterwards no order has the code, an absent code changes nothing, and other codes are unchanged. |
| `Orders.PlaceTwice` | modules/data-management/code/saga-implementation/order-service/src/main/java/com/nbicocchi/order/workers/OrderWorkers.java:23-30 | placing the same new order twice gives PASS then FAIL "Duplicate order" |
| `Orders.RemovalIdempotent` | modules/data-management/code/saga-implementation/order-service/src/main/java/com/nbicocchi/order/workers/OrderWorkers.java:37-39 | deleting twice equals deleting once |
| `Orders.PlaceThenRemove` | modules/data-management/code/saga-implementation/order-service/src/main/java/com/nbicocchi/order/workers/OrderWorkers.java:23-39 | a placement that passed, followed by the compensating delete, restores the original store |
| `Orders.OrderRepository.FindByCode` | modules/data-management/code/saga-implementation/order-service/src/main/java/com/nbicocchi/order/workers/OrderWorkers.java:23 | finds the order with a code exactly when one is stored |
| `Orders.OrderRepository.Save` | modules/data-management/code/saga-implementation/order-service/src/main/java/com/nbicocchi/order/workers/OrderWorkers.java:29 | inserts an order whose code is not yet stored (the INSERT the unique code column allows), changing no other code |
| `Orders.OrderRepository.Delete` | modules/data-management/code/saga-implementation/order-service/src/main/java/com/nbicocchi/order/workers/OrderWorkers.java:38 | removes the order with the code, changing no other code |
| `Orders.OrderWorkers.PlaceOrder` | modules/data-management/code/saga-implementation/order-service/src/main/java/com/nbicocchi/order/workers/OrderWorkers.java:21-31 | the new store and result are those of `Placement` |
| `Orders.OrderWorkers.DeleteOrder` | modules/data-management/code/saga-implementation/order-service/src/main/java/com/nbicocchi/order/workers/OrderWorkers.java:34-40 | the new store and result are those of `Removal` |
| `Products.Insertion` | modules/data-management/code/saga-implementation/cart-service/src/main/java/com/nbicocchi/cart/worker/CartInsertWorker.java:26-41 | COMPLETED iff the code is non-null and not yet stored; then the store gains exactly that code, holding the product built from `productCode`, `name` and `description`. Otherwise FAILED and the store is unchanged. No output data; other codes are unchanged either way. |
| `Products.InsertTwiceFails` | modules/data-management/code/saga-implementation/cart-service/src/main/java/com/nbicocchi/cart/worker/CartInsertWorker.java:32-37 | a second insert of the same task fails and changes nothing |
| `Products.FromInput` | modules/data-management/code/saga-implementation/cart-service/src/main/java/com/nbicocchi/cart/worker/CartInsertWorker.java:28-32 | the product's code, name and description are the task's `productCode`, `name` and `description` inputs |
| `Products.Find` | modules/data-management/code/saga-implementation/warehouse-service/src/main/java/com/nbicocchi/warehouse/persistence/repository/ProductRepository.java:9 | finds a row exactly when the code is non-null and stored, and returns that row |
| `Products.Deletion` | modules/data-management/code/saga-implementation/cart-service/src/main/java/com/nbicocchi/cart/worker/CartDeleteWorker.java:29-49 | COMPLETED iff the code is stored. Then the output is the row's name and description and the row is removed. Otherwise: FAILED, no output, store unchanged. Other codes are unchanged either way. |
| `Products.DeleteTwiceFails` | modules/data-management/code/saga-implementation/cart-service/src/main/java/com/nbicocchi/cart/worker/CartDeleteWorker.java:33-47 | a second delete of the same code fails and changes nothing |
| `Products.InsertThenDelete` | modules/data-management/code/saga-implementation/cart-service/src/main/java/com/nbicocchi/cart/worker/CartDeleteWorker.java:33-43 | deleting the code of an insert that completed gives COMPLETED with the inserted name and description and restores the prior store |
| `Products.ProductRepository.Save` | modules/data-management/code/saga-implementation/cart-service/src/main/java/com/nbicocchi/cart/worker/CartInsertWorker.java:37 | saves exactly when the code is non-null and new, adding that row and nothing else; otherwise the store is unchanged |
| `Products.ProductRepository.Delete` | modules/data-management/code/saga-implementation/cart-service/src/main/java/com/nbicocchi/cart/worker/CartDeleteWorker.java:40 | removes the row with the product's code and nothing else |
| `Products.ProductRepository.FindByCode` | modules/data-management/code/saga-implementation/warehouse-service/src/main/java/com/nbicocchi/warehouse/persistence/repository/ProductRepository.java:9 | finds the row with a code exactly when one is stored, and that row carries the code |
| `Cart.CartInsertWorker.constructor` | modules/data-management/code/saga-implementation/cart-service/src/main/java/com/nbicocchi/cart/worker/CartInsertWorker.java:14-23 | the worker's task name is the one it was built with |
| `Cart.CartInsertWorker.Execute` | modules/data-management/code/saga-implementation/cart-service/src/main/java/com/nbicocchi/cart/worker/CartInsertWorker.java:26-41 | the new cart store and the result are those of `Insertion` |
| `Cart.CartDeleteWorker.constructor` | modules/data-management/code/saga-implementation/cart-service/src/main/java/com/nbicocchi/cart/worker/CartDeleteWorker.java:17-26 | the worker's task name is the one it was built with |
| `Cart.CartDeleteWorker.Execute` | modules/data-management/code/saga-implementation/cart-service/src/main/java/com/nbicocchi/cart/worker/CartDeleteWorker.java:29-49 | the new cart store and the result are those of `Deletion` |
| `Cart.InsertThenDeleteScenario` | modules/data-management/code/saga-implementation/cart-service/src/main/java/com/nbicocchi/cart/worker/CartDeleteWorker.java:33-47 | insert and delete workers sharing one store: an accepted insert completes with no output, the delete completes with the inserted name and description, a second delete fails with no output, and the store ends as it began |
| `Warehouse.DeleteProductWorker.constructor` | modules/data-management/code/saga-implementation/warehouse-service/src/main/java/com/nbicocchi/warehouse/worker/DeleteProductWorker.java:17-26 | the worker's task name is the one it was built with |
| `Warehouse.DeleteProductWorker.Execute` | modules/data-management/code/saga-implementation/warehouse-service/src/main/java/com/nbicocchi/warehouse/worker/DeleteProductWorker.java:29-46 | the new warehouse store and the result are those of `Deletion` |
| `Warehouse.DeleteProductFromWarehouseProduct.constructor` | modules/data-management/code/saga-implementation/warehouse-service/src/main/java/com/nbicocchi/warehouse/worker/DeleteProductFromWarehouseProduct.java:17-26 | the worker's task name is the one it was built with |
| `Warehouse.DeleteProductFromWarehouseProduct.Execute` | modules/data-management/code/saga-implementation/warehouse-service/src/main/java/com/nbicocchi/warehouse/worker/DeleteProductFromWarehouseProduct.java:29-46 | the new warehouse store and the result are those of `Deletion` |
| `Purchase.PurchaseInsertWorker.constructor` | modules/data-management/code/saga-implementation/purchase-service/src/main/java/com/nbicocchi/purchase/worker/PurchaseInsertWorker.java:15-24 | the worker's task name is the one it was built with |
| `Purchase.PurchaseInsertWorker.Execute` | modules/data-management/code/saga-implementation/purchase-service/src/main/java/com/nbicocchi/purchase/worker/PurchaseInsertWorker.java:27-45 | the new purchase store and the result are those of `Insertion` |
| `OrderFraudCheck.CheckForFraud` | modules/data-management/code/saga-implementation/order-service/src/main/java/com/nbicocchi/order/service/FraudCheckService.java:15-25 | FAIL "Amount too large" iff amount > 100000, else PASS "All good!". Exactly 100000 passes. |
| `OrderFraudCheck.FailsAbove` | modules/data-management/code/saga-implementation/order-service/src/main/java/com/nbicocchi/order/service/FraudCheckService.java:17 | once an amount fails, every larger amount fails the same way |
| `PaymentFraudCheck.CheckForFraud` | modules/data-management/code/saga-implementation/payment-service/src/main/java/com/nbicocchi/payment/service/FraudCheckService.java:15-21 | FAIL "Amount too large" iff amount > 100000, else PASS "All good" (no "!"). Exactly 100000 passes. |
| `PaymentFraudCheck.FailsAbove` | modules/data-management/code/saga-implementation/payment-service/src/main/java/com/nbicocchi/payment/service/FraudCheckService.java:16 | once an amount fails, every larger amount fails the same way |
| `ConductorWorkers.CheckForFraudTask` | modules/data-management/code/saga-implementation/order-service/src/main/java/com/nbicocchi/order/workers/ConductorWorkers.java:32-36 | returns the order fraud check's result for the deposit, so FAIL iff amount > 100000 |
| `ConductorWorkers.Deposit` | modules/data-management/code/saga-implementation/order-service/src/main/java/com/nbicocchi/order/workers/ConductorWorkers.java:50-53 | deposit `i` has account id `acc-id-` followed by digits whose value is `i` and which starts with `0` only for `i = 0`, when it is that single digit (the canonical numeral), and amount `1500 * i` |
| `ConductorWorkers.RetrieveDepositBatch` | modules/data-management/code/saga-implementation/order-service/src/main/java/com/nbicocchi/order/workers/ConductorWorkers.java:43-57 | missing count: the draw in 5..10 (the only case that constrains it). The length is min(100, count), empty when count <= 0, never above 100. Deposit i is account "acc-id-i" with amount i*1500. |
| `ConductorWorkers.AccountIdsDistinct` | modules/data-management/code/saga-implementation/order-service/src/main/java/com/nbicocchi/order/workers/ConductorWorkers.java:49-53 | no two deposits of a batch share an account id |
| `ConductorWorkers.AmountsIncrease` | modules/data-management/code/saga-implementation/order-service/src/main/java/com/nbicocchi/order/workers/ConductorWorkers.java:49-53 | amounts start at 0 and strictly increase along the batch |
| `PaymentWorkers.CheckForFraudTask` | modules/data-management/code/saga-implementation/payment-service/src/main/java/com/nbicocchi/payment/worker/PaymentWorkers.java:30-34 | returns the payment fraud check's result, so FAIL "Amount too large" iff amount > 100000, else PASS "All good"; no state involved |

## Left out

- The saga coordinator is left out. Step ordering, compensation triggering, leases and redelivery belong to the external workflow server, and no workflow definition is part of the source.
- Worker wiring (task clients, pollers, thread counts, server URLs) and the Spring wiring that builds the workers are left out. These are network I/O and poller concurrency. With concurrent pollers, the check-then-save in `placeOrder` could race; the model runs each task alone.
- Logging and console output are left out.
- HTTP controllers, the workflow-start service, data seeding and the Python ML services are left out.
- Java nulls in typed inputs are not modelled. A `null` order code, product-id list or deposit amount would throw a `NullPointerException` or violate a constraint. The engine would turn that into a failed task. Only the string inputs of the product workers model `null`.
- A non-string value under a product task's input key is not modelled. The `(String)` cast would throw.
- Products.Insertion: the cart, warehouse and purchase product entities are not part of this model; their code column is taken to be unique and non-null like the code column of the inventory service's own `Product` entity. A refused `save` is an exception; the model reports the FAILED status the worker runtime sets and leaves out the exception's message and any retries. The warehouse delete workers (`Products.Deletion`) rely on the same assumption: a store holds at most one row per code and none with a `null` code.
- Inventory.InventoryRepository.FindInventoriesByProductId: the service's `InventoryRepository` (inventory-service/src/main/java/com/nbicocchi/inventory/persistence/repository/InventoryRepository.java:9-10) declares no such finder, and the `Inventory` entity is not part of this model. Looking up a quantity by the product-code string is therefore assumed, and the inventory is a map from product id to quantity.
- Orders.OrderRepository.Save: the order entity's generated `id` is not modelled. An incoming order is taken to carry none, so `save` is an INSERT. An order arriving with an `id` would instead be merged into the row with that id, which keeps its old code (the code is not updatable); the task would still PASS but the new code would not be stored.
- Inventory.InventoryWorkers.InventoryCheck: an exception is modelled as the `Aborted` outcome carrying its message. The task's failure report is left to the engine.
- The default task status a result has before the workers set one is not modelled. Every path in the modelled workers sets a status.
- The inventory service's own `worker/DeleteProductWorker.java` is left out. It reads the product code and returns without setting a status or touching state.
- OrderFraudCheck.CheckForFraud: the order service's check fills a result through a no-argument constructor and setters. It imports a `workers.FraudCheckResult` type that is not part of this model. It is modelled as the same two-field verdict-and-reason result as the order service's record.
- The unused `random` field of the payment workers is left out.
