/** The purchase service's insert worker: saves the product named by a
    task's input into the purchase store; the save is refused, and the task
    fails, when the code is `null` or already stored. */
module Purchase {
  import opened Conductor
  import opened Products

  class PurchaseInsertWorker {
    const taskDefName: string
    const productChartRepository: ProductRepository

    constructor (taskDefName: string, productChartRepository: ProductRepository)
      ensures this.taskDefName == taskDefName
      ensures this.productChartRepository == productChartRepository
    {
      this.taskDefName := taskDefName;
      this.productChartRepository := productChartRepository;
    }

    method Execute(task: Task) returns (result: TaskResult)
      requires productChartRepository.Valid()
      modifies productChartRepository
      ensures productChartRepository.Valid()
      ensures Handled(productChartRepository.rows, result)
        == Insertion(old(productChartRepository.rows), task)
    {
      var code := Input(task, "productCode");
      var name := Input(task, "name");
      var description := Input(task, "description");
      var product := Product(code, name, description);
      var saved := productChartRepository.Save(product);
      result := TaskResult(if saved then Completed else Failed, map[]);
    }
  }
}
