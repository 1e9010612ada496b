/** The order service's order store and its two saga workers:
    `persist-pending-order`, which records a new order unless one with the
    same code is already stored, and its compensation
    `delete-pending-order`, which removes the order with a code if there is
    one. */
module Orders {
  import opened Jdk
  import opened Pojos

  datatype OrderStatus = Pending | Approved | Rejected

  datatype Order = Order(code: string, productIds: string, customerId: string,
                         creditCardNumber: string, status: OrderStatus)

  /** The result an order worker returns: a verdict and a message. */
  datatype TaskResult = TaskResult(result: Verdict, message: string)

  /** The order store, indexed by order code (codes are unique). */
  type Orders = map<string, Order>

  /** Every order sits under its own code. */
  ghost predicate Keyed(orders: Orders)
  {
    forall c :: c in orders ==> orders[c].code == c
  }

  /** The store and the result after a worker has handled an order. */
  datatype Handled = Handled(orders: Orders, result: TaskResult)

  /** What `placeOrder` does: an order whose code is already stored is
      refused as a duplicate and the store is left alone; a new order is
      stored and passes with an empty message. Either way no other code's
      order changes. */
  function Placement(orders: Orders, order: Order): (h: Handled)
    ensures h.result.result == Pass <==> order.code !in orders
    ensures order.code in orders ==>
      h.result == TaskResult(Fail, "Duplicate order") && h.orders == orders
    ensures order.code !in orders ==>
      h.result == TaskResult(Pass, "") && h.orders.Keys == orders.Keys + {order.code}
    ensures order.code in h.orders
    ensures h.result.result == Pass ==> h.orders[order.code] == order
    ensures forall c :: c != order.code ==>
      (c in h.orders <==> c in orders) && (c in orders ==> h.orders[c] == orders[c])
    ensures Keyed(orders) ==> Keyed(h.orders)
  {
    if order.code in orders then Handled(orders, TaskResult(Fail, "Duplicate order"))
    else Handled(orders[order.code := order], TaskResult(Pass, ""))
  }

  /** What `deleteOrder` does: it always passes, and afterwards no order has
      the given code; an absent code changes nothing, and no other code's
      order changes. */
  function Removal(orders: Orders, order: Order): (h: Handled)
    ensures h.result == TaskResult(Pass, "")
    ensures order.code !in h.orders
    ensures order.code !in orders ==> h.orders == orders
    ensures forall c :: c != order.code ==>
      (c in h.orders <==> c in orders) && (c in orders ==> h.orders[c] == orders[c])
    ensures Keyed(orders) ==> Keyed(h.orders)
  {
    if order.code in orders then Handled(orders - {order.code}, TaskResult(Pass, ""))
    else Handled(orders, TaskResult(Pass, ""))
  }

  /** Placing the same order twice passes the first time and is refused as
      a duplicate the second time. */
  lemma PlaceTwice(orders: Orders, order: Order)
    requires order.code !in orders
    ensures var first := Placement(orders, order);
      && first.result == TaskResult(Pass, "")
      && Placement(first.orders, order) == Handled(first.orders, TaskResult(Fail, "Duplicate order"))
  {
  }

  /** The compensation is idempotent: deleting twice is deleting once. */
  lemma RemovalIdempotent(orders: Orders, order: Order)
    ensures Removal(Removal(orders, order).orders, order) == Removal(orders, order)
  {
  }

  /** A placement that passed is undone by the compensation: the store is
      back to what it was before. */
  lemma PlaceThenRemove(orders: Orders, order: Order)
    requires Placement(orders, order).result.result == Pass
    ensures Removal(Placement(orders, order).orders, order).orders == orders
  {
    assert orders[order.code := order] - {order.code} == orders;
  }

  /** The order table, updated in place. */
  class OrderRepository {
    var orders: Orders

    ghost predicate Valid()
      reads this
    {
      Keyed(orders)
    }

    constructor ()
      ensures Valid() && orders == map[]
    {
      orders := map[];
    }

    /** `findByCode(code)`. */
    method FindByCode(code: string) returns (found: Optional<Order>)
      requires Valid()
      ensures found.Present? <==> code in orders
      ensures found.Present? ==> found.value == orders[code] && found.value.code == code
    {
      found := if code in orders then Present(orders[code]) else Empty;
    }

    /** `save(order)` of a new order: an INSERT, so the code must not be
        stored yet (the order code column is unique). */
    method Save(order: Order)
      requires Valid() && order.code !in orders
      modifies this
      ensures Valid()
      ensures orders == old(orders)[order.code := order]
    {
      orders := orders[order.code := order];
    }

    /** `delete(order)`. */
    method Delete(order: Order)
      requires Valid()
      modifies this
      ensures Valid()
      ensures orders == old(orders) - {order.code}
    {
      orders := orders - {order.code};
    }
  }

  class OrderWorkers {
    const orderRepository: OrderRepository

    constructor (orderRepository: OrderRepository)
      ensures this.orderRepository == orderRepository
    {
      this.orderRepository := orderRepository;
    }

    /** Task `persist-pending-order`. */
    method PlaceOrder(order: Order) returns (result: TaskResult)
      requires orderRepository.Valid()
      modifies orderRepository
      ensures orderRepository.Valid()
      ensures Handled(orderRepository.orders, result) == Placement(old(orderRepository.orders), order)
    {
      var existingOrder := orderRepository.FindByCode(order.code);
      if existingOrder.Present? {
        return TaskResult(Fail, "Duplicate order");
      }
      orderRepository.Save(order);
      return TaskResult(Pass, "");
    }

    /** Task `delete-pending-order`. */
    method DeleteOrder(order: Order) returns (result: TaskResult)
      requires orderRepository.Valid()
      modifies orderRepository
      ensures orderRepository.Valid()
      ensures Handled(orderRepository.orders, result) == Removal(old(orderRepository.orders), order)
    {
      var existingOrder := orderRepository.FindByCode(order.code);
      if existingOrder.Present? {
        orderRepository.Delete(existingOrder.value);
      }
      return TaskResult(Pass, "");
    }
  }
}
