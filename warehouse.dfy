/** The warehouse service's two delete workers. Both apply the same rule
    to the warehouse store: remove the row with a task's `productCode`,
    reporting its name and description, or fail when there is none. */
module Warehouse {
  import opened Conductor
  import opened Products

  class DeleteProductWorker {
    const taskDefName: string
    const productRepository: ProductRepository

    constructor (taskDefName: string, productRepository: ProductRepository)
      ensures this.taskDefName == taskDefName
      ensures this.productRepository == productRepository
    {
      this.taskDefName := taskDefName;
      this.productRepository := productRepository;
    }

    method Execute(task: Task) returns (result: TaskResult)
      requires productRepository.Valid()
      modifies productRepository
      ensures productRepository.Valid()
      ensures Handled(productRepository.rows, result)
        == Deletion(old(productRepository.rows), task)
    {
      var code := Input(task, "productCode");
      var productWarehouse := productRepository.FindByCode(code);
      if productWarehouse.Present? {
        var product := productWarehouse.value;
        var output := map["name" := product.name, "description" := product.description];
        productRepository.Delete(product);
        result := TaskResult(Completed, output);
      } else {
        result := TaskResult(Failed, map[]);
      }
    }
  }

  class DeleteProductFromWarehouseProduct {
    const taskDefName: string
    const productWarehouseRepository: ProductRepository

    constructor (taskDefName: string, productWarehouseRepository: ProductRepository)
      ensures this.taskDefName == taskDefName
      ensures this.productWarehouseRepository == productWarehouseRepository
    {
      this.taskDefName := taskDefName;
      this.productWarehouseRepository := productWarehouseRepository;
    }

    method Execute(task: Task) returns (result: TaskResult)
      requires productWarehouseRepository.Valid()
      modifies productWarehouseRepository
      ensures productWarehouseRepository.Valid()
      ensures Handled(productWarehouseRepository.rows, result)
        == Deletion(old(productWarehouseRepository.rows), task)
    {
      var code := Input(task, "productCode");
      var productWarehouse := productWarehouseRepository.FindByCode(code);
      if productWarehouse.Present? {
        var product := productWarehouse.value;
        var output := map["name" := product.name, "description" := product.description];
        productWarehouseRepository.Delete(product);
        result := TaskResult(Completed, output);
      } else {
        result := TaskResult(Failed, map[]);
      }
    }
  }
}
