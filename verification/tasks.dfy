/** The task record and the table that holds them. */
module Tasks {

  import opened Wrappers
  import opened Js

  /** Milliseconds since the epoch, as `Date.now()` reports them. */
  type Timestamp = nat

  /** One stored task. `title` and `description` hold whatever the request body
      carried (possibly `Undefined`); `completedAt` is `None` while the task is
      open. */
  datatype Task = Task(
    id: string,
    title: Value,
    description: Value,
    completedAt: Option<Timestamp>,
    createdAt: Timestamp,
    updatedAt: Timestamp)

  /** Every field of a task except its key: the record a handler passes to
      `update`. */
  datatype Fields = Fields(
    title: Value,
    description: Value,
    completedAt: Option<Timestamp>,
    createdAt: Timestamp,
    updatedAt: Timestamp)

  /** The stored record `{ id, ...fields }`. */
  function Keyed(id: string, f: Fields): Task {
    Task(id, f.title, f.description, f.completedAt, f.createdAt, f.updatedAt)
  }

  /** The "tasks" table, in insertion order. */
  type Table = seq<Task>

  function Ids(table: Table): set<string> {
    set t | t in table :: t.id
  }

  /** No two records share an id. */
  predicate UniqueIds(table: Table) {
    forall i, j | 0 <= i < j < |table| :: table[i].id != table[j].id
  }
}
