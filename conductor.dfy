/** The task payloads a worker exchanges with the workflow engine: a task
    carries a flat string-keyed input mapping, a task result carries a
    status and a string-keyed output mapping. */
module Conductor {
  import opened Jdk

  /** The two statuses the workers ever set on a result. */
  datatype Status = Completed | Failed

  /** A task as a worker receives it. */
  datatype Task = Task(inputData: map<string, string>)

  /** A task result: the status the worker set and the output data it added
      (a value added as `null` is kept as `Null`). */
  datatype TaskResult = TaskResult(status: Status, outputData: map<string, Text>)

  /** `(String) task.getInputData().get(key)`: `null` when the key is absent. */
  function Input(task: Task, key: string): (t: Text)
    ensures t.Str? <==> key in task.inputData
    ensures t.Str? ==> t.chars == task.inputData[key]
  {
    if key in task.inputData then Str(task.inputData[key]) else Null
  }
}
