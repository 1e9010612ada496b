/** The cart service's two product workers, which share the cart store:
    `insert_product_in_the_cart` and its compensation `cart_delete_product`. */
module Cart {
  import opened Conductor
  import opened Products

  /** Saves the product named by a task's `productCode`, `name` and
      `description` into the cart store; the save is refused, and the task
      fails, when the code is `null` or already in the cart. */
  class CartInsertWorker {
    const taskDefName: string
    const productCartRepository: ProductRepository

    constructor (taskDefName: string, productCartRepository: ProductRepository)
      ensures this.taskDefName == taskDefName
      ensures this.productCartRepository == productCartRepository
    {
      this.taskDefName := taskDefName;
      this.productCartRepository := productCartRepository;
    }

    method Execute(task: Task) returns (result: TaskResult)
      requires productCartRepository.Valid()
      modifies productCartRepository
      ensures productCartRepository.Valid()
      ensures Handled(productCartRepository.rows, result)
        == Insertion(old(productCartRepository.rows), task)
    {
      var code := Input(task, "productCode");
      var name := Input(task, "name");
      var description := Input(task, "description");
      var product := Product(code, name, description);
      var saved := productCartRepository.Save(product);
      result := TaskResult(if saved then Completed else Failed, map[]);
    }
  }

  /** Removes the cart row with a task's `productCode`, reporting its name
      and description; fails when the cart holds no such row. */
  class CartDeleteWorker {
    const taskDefName: string
    const productRepository: ProductRepository

    constructor (taskDefName: string, productWarehouseRepository: ProductRepository)
      ensures this.taskDefName == taskDefName
      ensures this.productRepository == productWarehouseRepository
    {
      this.taskDefName := taskDefName;
      this.productRepository := productWarehouseRepository;
    }

    method Execute(task: Task) returns (result: TaskResult)
      requires productRepository.Valid()
      modifies productRepository
      ensures productRepository.Valid()
      ensures Handled(productRepository.rows, result)
        == Deletion(old(productRepository.rows), task)
    {
      var code := Input(task, "productCode");
      var productWarehouse := productRepository.FindByCode(code);
      if productWarehouse.Present? {
        var product := productWarehouse.value;
        var output := map["name" := product.name, "description" := product.description];
        productRepository.Delete(product);
        result := TaskResult(Completed, output);
      } else {
        result := TaskResult(Failed, map[]);
      }
    }
  }

  /** What a caller can rely on: the two workers share one store; an insert
      that the store accepts, followed by the delete of its code, gives back
      the inserted name and description and leaves the store as it was, and
      a second delete fails. */
  method InsertThenDeleteScenario(store: ProductRepository, task: Task)
    returns (inserted: TaskResult, deleted: TaskResult, again: TaskResult)
    requires store.Valid()
    requires Insertion(store.rows, task).result.status == Completed
    modifies store
    ensures inserted == TaskResult(Completed, map[])
    ensures deleted == TaskResult(Completed,
      map["name" := Input(task, "name"), "description" := Input(task, "description")])
    ensures again == TaskResult(Failed, map[])
    ensures store.rows == old(store.rows)
  {
    var insert := new CartInsertWorker("insert_product_in_the_cart", store);
    var delete := new CartDeleteWorker("cart_delete_product", store);
    inserted := insert.Execute(task);
    deleted := delete.Execute(task);
    InsertThenDelete(old(store.rows), task);
    again := delete.Execute(task);
  }
}
