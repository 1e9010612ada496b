/** The inventory service's `inventory-check` worker. It splits an order's
    comma-separated product ids and, from left to right, takes one unit of
    each product from the inventory, saving every decrement as it goes; it
    aborts with an error at the first product that is missing or has no
    units left, keeping the decrements already saved. */
module Inventory {
  import opened Jdk

  /** Units on hand per product id. A quantity is an `int`: the check only
      decrements quantities above zero, so it never makes one negative. */
  type Stock = map<string, int>

  /** The part of an order the inventory check reads. */
  datatype Order = Order(productIds: string)

  /** How the check ends: normally, or with a `RuntimeException` message. */
  datatype Outcome = Done | Aborted(message: string)

  datatype Progress = Progress(stock: Stock, outcome: Outcome)

  /** One pass of the loop body for product `id`. */
  function Take(stock: Stock, id: string): (p: Progress)
    ensures p.outcome.Done? <==> id in stock && stock[id] > 0
    ensures p.outcome.Done? ==> p.stock == stock[id := stock[id] - 1]
    ensures p.outcome.Aborted? ==> p.stock == stock
    ensures p.outcome.Aborted? && id in stock ==> p.outcome.message == "Inventory empty: " + id
    ensures id !in stock ==> p.outcome.message == "Inventory not found: " + id
  {
    if id in stock then
      if stock[id] > 0 then Progress(stock[id := stock[id] - 1], Done)
      else Progress(stock, Aborted("Inventory empty: " + id))
    else Progress(stock, Aborted("Inventory not found: " + id))
  }

  /** The loop over `ids`, left to right, stopping at the first abort. */
  function Check(stock: Stock, ids: seq<string>): (p: Progress)
    ensures p.stock.Keys == stock.Keys
    decreases |ids|
  {
    if ids == [] then Progress(stock, Done)
    else
      var first := Take(stock, ids[0]);
      if first.outcome.Done? then Check(first.stock, ids[1..]) else first
  }

  /** The loop's first pass, and the passes after it. */
  lemma CheckFirst(stock: Stock, ids: seq<string>)
    requires ids != []
    ensures var first := Take(stock, ids[0]);
      Check(stock, ids) == if first.outcome.Done? then Check(first.stock, ids[1..]) else first
  {
  }

  /** How often `id` occurs in `ids`. */
  function Count(ids: seq<string>, id: string): nat
  {
    if ids == [] then 0 else (if ids[0] == id then 1 else 0) + Count(ids[1..], id)
  }

  lemma {:induction false} CountAbsent(ids: seq<string>, id: string)
    requires id !in ids
    ensures Count(ids, id) == 0
  {
    if ids != [] {
      CountAbsent(ids[1..], id);
    }
  }

  /** Every id the check meets is stocked at least as often as it is listed. */
  ghost predicate Covered(stock: Stock, ids: seq<string>)
  {
    forall id :: id in ids ==> id in stock && Count(ids, id) <= stock[id]
  }

  /** The check succeeds exactly when every listed product is in the
      inventory with at least as many units as it is listed. */
  lemma {:induction false} CheckSucceedsIff(stock: Stock, ids: seq<string>)
    ensures Check(stock, ids).outcome.Done? <==> Covered(stock, ids)
  {
    if ids != [] {
      var id, rest := ids[0], ids[1..];
      var first := Take(stock, id);
      assert forall x :: x in ids <==> x == id || x in rest;
      assert forall x :: Count(ids, x) == (if x == id then 1 else 0) + Count(rest, x);
      if first.outcome.Done? {
        CheckSucceedsIff(first.stock, rest);
        if Covered(stock, ids) {
          forall x | x in rest ensures x in first.stock && Count(rest, x) <= first.stock[x] {
          }
        }
        if Covered(first.stock, rest) {
          forall x | x in ids ensures x in stock && Count(ids, x) <= stock[x] {
            if x != id {
              assert x in rest;
            } else if x in rest {
              assert Count(rest, x) <= first.stock[x];
            } else {
              CountAbsent(rest, x);
            }
          }
        }
      } else {
        assert id in ids;
      }
    }
  }

  /** A check that succeeds takes from every product exactly as many units
      as it is listed; with the keys unchanged, every unlisted product keeps
      its quantity. */
  lemma {:induction false} CheckTakesCounts(stock: Stock, ids: seq<string>)
    requires Check(stock, ids).outcome.Done?
    ensures forall id :: id in stock ==> Check(stock, ids).stock[id] == stock[id] - Count(ids, id)
  {
    if ids != [] {
      var first := Take(stock, ids[0]);
      CheckTakesCounts(first.stock, ids[1..]);
    }
  }

  /** No quantity is ever driven below zero: a quantity the check changes
      ends at zero or above. */
  lemma {:induction false} CheckNeverNegative(stock: Stock, ids: seq<string>)
    ensures var after := Check(stock, ids).stock;
      forall id :: id in after ==> after[id] == stock[id] || after[id] >= 0
  {
    if ids != [] {
      var first := Take(stock, ids[0]);
      if first.outcome.Done? {
        CheckNeverNegative(first.stock, ids[1..]);
      }
    }
  }

  /** There is no rollback. A check that aborts stops at the first failing
      id, at some position `k`: the stock it leaves is the stock after a
      successful check of the ids before `k`, the ids after `k` are never
      looked at, and the error is the one for `ids[k]`. */
  lemma {:induction false} CheckAbortKeepsPrefix(stock: Stock, ids: seq<string>)
    requires Check(stock, ids).outcome.Aborted?
    ensures var p := Check(stock, ids);
      exists k :: 0 <= k < |ids|
        && Check(stock, ids[..k]) == Progress(p.stock, Done)
        && Take(p.stock, ids[k]).outcome == p.outcome
  {
    var p := Check(stock, ids);
    var first := Take(stock, ids[0]);
    if first.outcome.Done? {
      var rest := ids[1..];
      CheckAbortKeepsPrefix(first.stock, rest);
      var k :| 0 <= k < |rest|
        && Check(first.stock, rest[..k]) == Progress(p.stock, Done)
        && Take(p.stock, rest[k]).outcome == p.outcome;
      assert ids[..k + 1][1..] == rest[..k];
      assert ids[k + 1] == rest[k];
      assert Check(stock, ids[..k + 1]) == Progress(p.stock, Done);
    } else {
      assert ids[..0] == [];
      assert Check(stock, ids[..0]) == Progress(p.stock, Done);
    }
  }

  /** Hence, after an abort at position `k`, each product keeps exactly the
      decrements for its occurrences before `k`. */
  lemma CheckAbortKeepsDecrements(stock: Stock, ids: seq<string>)
    requires Check(stock, ids).outcome.Aborted?
    ensures var p := Check(stock, ids);
      exists k :: 0 <= k < |ids|
        && Take(p.stock, ids[k]).outcome == p.outcome
        && forall id :: id in stock ==> p.stock[id] == stock[id] - Count(ids[..k], id)
  {
    var p := Check(stock, ids);
    CheckAbortKeepsPrefix(stock, ids);
    var k :| 0 <= k < |ids|
      && Check(stock, ids[..k]) == Progress(p.stock, Done)
      && Take(p.stock, ids[k]).outcome == p.outcome;
    CheckTakesCounts(stock, ids[..k]);
  }

  /** The inventory table, updated in place. */
  class InventoryRepository {
    var quantities: Stock

    constructor (initial: Stock)
      ensures quantities == initial
    {
      quantities := initial;
    }

    /** `findInventoriesByProductId(id)`, reduced to the quantity. */
    method FindInventoriesByProductId(id: string) returns (found: Optional<int>)
      ensures found.Present? <==> id in quantities
      ensures found.Present? ==> found.value == quantities[id]
    {
      found := if id in quantities then Present(quantities[id]) else Empty;
    }

    /** `save(inventory)` after `setQuantity(quantity)`. */
    method Save(id: string, quantity: int)
      modifies this
      ensures quantities == old(quantities)[id := quantity]
    {
      quantities := quantities[id := quantity];
    }
  }

  class InventoryWorkers {
    const inventoryRepository: InventoryRepository

    constructor (inventoryRepository: InventoryRepository)
      ensures this.inventoryRepository == inventoryRepository
    {
      this.inventoryRepository := inventoryRepository;
    }

    /** Task `inventory-check`. */
    method InventoryCheck(order: Order) returns (outcome: Outcome)
      modifies inventoryRepository
      ensures Progress(inventoryRepository.quantities, outcome)
        == Check(old(inventoryRepository.quantities), Split(order.productIds))
    {
      var productIds := Split(order.productIds);
      for i := 0 to |productIds|
        invariant Check(old(inventoryRepository.quantities), productIds)
          == Check(inventoryRepository.quantities, productIds[i..])
      {
        var id := productIds[i];
        CheckFirst(inventoryRepository.quantities, productIds[i..]);
        assert productIds[i..][1..] == productIds[i + 1..];
        var inventoryOptional := inventoryRepository.FindInventoriesByProductId(id);
        if inventoryOptional.Present? {
          var quantity := inventoryOptional.value;
          if quantity > 0 {
            inventoryRepository.Save(id, quantity - 1);
          } else {
            return Aborted("Inventory empty: " + id);
          }
        } else {
          return Aborted("Inventory not found: " + id);
        }
      }
      assert productIds[|productIds|..] == [];
      return Done;
    }
  }
}
