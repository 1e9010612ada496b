/** The product stores of the cart, warehouse and purchase services. Each
    service keeps its own table of `Product(code, name, description)` rows,
    in which a code is unique and never `null`, and looks rows up by code;
    its workers insert a row built from a task's input or delete the row
    with a given code. */
module Products {
  import opened Jdk
  import opened Conductor

  datatype Product = Product(code: Text, name: Text, description: Text)

  /** A table, as the rows it holds, indexed by their (non-null) codes. */
  type Rows = map<string, Product>

  /** Every row sits under its own code: the table's unique, non-null code
      column. */
  ghost predicate Keyed(rows: Rows)
  {
    forall c :: c in rows ==> rows[c].code == Str(c)
  }

  /** The row `findByCode(code)` returns, if any; no row has a `null` code. */
  function Find(rows: Rows, code: Text): (found: Optional<Product>)
    ensures found.Present? <==> code.Str? && code.chars in rows
    ensures found.Present? ==> found.value == rows[code.chars]
  {
    if code.Str? && code.chars in rows then Present(rows[code.chars]) else Empty
  }

  /** The store and the task result after a worker has handled a task. */
  datatype Handled = Handled(rows: Rows, result: TaskResult)

  /** `new Product(code, name, description)` from a task's input fields. */
  function FromInput(task: Task): (p: Product)
    ensures p.code == Input(task, "productCode")
    ensures p.name == Input(task, "name") && p.description == Input(task, "description")
  {
    Product(Input(task, "productCode"), Input(task, "name"), Input(task, "description"))
  }

  /** What an insert worker does to a store. `save` of a fresh entity is an
      INSERT: with a new, non-null code the product built from the task's
      input is stored and the task completes with no output data; with a
      `null` code or a code already stored the table's constraint refuses
      the row, the exception reaches the worker runtime, which reports the
      task FAILED, and the store is unchanged. No other row ever changes. */
  function Insertion(rows: Rows, task: Task): (h: Handled)
    ensures var code := Input(task, "productCode");
      h.result.status == Completed <==> code.Str? && code.chars !in rows
    ensures h.result.outputData == map[]
    ensures h.result.status == Completed ==>
      var code := Input(task, "productCode").chars;
      h.rows == rows[code := FromInput(task)] && h.rows.Keys == rows.Keys + {code}
    ensures h.result.status == Failed ==> h.rows == rows
    ensures forall c :: c in rows ==> c in h.rows && h.rows[c] == rows[c]
    ensures Keyed(rows) ==> Keyed(h.rows)
  {
    var p := FromInput(task);
    if p.code.Str? && p.code.chars !in rows then
      Handled(rows[p.code.chars := p], TaskResult(Completed, map[]))
    else
      Handled(rows, TaskResult(Failed, map[]))
  }

  /** What a delete worker does to a store: when a row has the task's
      product code it reports the row's name and description, removes the
      row and completes; otherwise (a `null` code included) it fails,
      reports nothing and leaves the store alone. */
  function Deletion(rows: Rows, task: Task): (h: Handled)
    ensures var code := Input(task, "productCode");
      h.result.status == Completed <==> code.Str? && code.chars in rows
    ensures h.result.status == Completed ==>
      var row := rows[Input(task, "productCode").chars];
      && h.result.outputData == map["name" := row.name, "description" := row.description]
      && h.rows == rows - {Input(task, "productCode").chars}
    ensures h.result.status == Failed ==> h.result.outputData == map[] && h.rows == rows
    ensures Find(h.rows, Input(task, "productCode")).Empty?
    ensures forall c :: c in rows && Str(c) != Input(task, "productCode") ==>
      c in h.rows && h.rows[c] == rows[c]
    ensures h.rows.Keys <= rows.Keys
    ensures Keyed(rows) ==> Keyed(h.rows)
  {
    var found := Find(rows, Input(task, "productCode"));
    if found.Present? then
      var p := found.value;
      Handled(rows - {Input(task, "productCode").chars},
              TaskResult(Completed, map["name" := p.name, "description" := p.description]))
    else
      Handled(rows, TaskResult(Failed, map[]))
  }

  /** A delete is not idempotent: deleting the same code a second time
      fails and changes nothing. */
  lemma DeleteTwiceFails(rows: Rows, task: Task)
    ensures var second := Deletion(Deletion(rows, task).rows, task);
      second.result.status == Failed && second.rows == Deletion(rows, task).rows
  {
  }

  /** Inserting twice under the same code is refused the second time. */
  lemma InsertTwiceFails(rows: Rows, task: Task)
    ensures var second := Insertion(Insertion(rows, task).rows, task);
      second.result.status == Failed && second.rows == Insertion(rows, task).rows
  {
  }

  /** An insert that completed, followed by the delete of its code, hands
      back the inserted name and description and restores the store. */
  lemma InsertThenDelete(rows: Rows, task: Task)
    requires Insertion(rows, task).result.status == Completed
    ensures var undone := Deletion(Insertion(rows, task).rows, task);
      && undone.result == TaskResult(Completed,
           map["name" := Input(task, "name"), "description" := Input(task, "description")])
      && undone.rows == rows
  {
    var code := Input(task, "productCode").chars;
    assert rows[code := FromInput(task)] - {code} == rows;
  }

  /** The table a service's repository manages, updated in place. */
  class ProductRepository {
    var rows: Rows

    ghost predicate Valid()
      reads this
    {
      Keyed(rows)
    }

    constructor ()
      ensures Valid() && rows == map[]
    {
      rows := map[];
    }

    /** `findByCode(code)`. */
    method FindByCode(code: Text) returns (found: Optional<Product>)
      requires Valid()
      ensures found == Find(rows, code)
      ensures found.Present? ==> found.value.code == code
    {
      found := if code.Str? && code.chars in rows then Present(rows[code.chars]) else Empty;
    }

    /** `save(product)` of a new entity: an INSERT, which the unique,
        non-null code column refuses for a `null` or already stored code. */
    method Save(product: Product) returns (saved: bool)
      requires Valid()
      modifies this
      ensures Valid()
      ensures saved <==> product.code.Str? && product.code.chars !in old(rows)
      ensures rows == if saved then old(rows)[product.code.chars := product] else old(rows)
    {
      saved := product.code.Str? && product.code.chars !in rows;
      if saved {
        rows := rows[product.code.chars := product];
      }
    }

    /** `delete(product)` of a stored row. */
    method Delete(product: Product)
      requires Valid() && product.code.Str?
      modifies this
      ensures Valid()
      ensures rows == old(rows) - {product.code.chars}
    {
      rows := rows - {product.code.chars};
    }
  }
}
