/**
 * The single-table SQL backend for the {id, subject, completed} task: table
 * `tasks(id, subject, is_completed)` with an autoincrement id. The table is
 * an ordered Table of rows; SQL text and the driver are not modelled.
 */
module SqliteRepository {
  import opened Outcomes
  import opened Identity
  import opened Store
  import opened SimpleTask

  /** The non-id columns of one row of `tasks`. */
  datatype TaskRow = TaskRow(subject: string, isCompleted: int)

  type Db = Table<TaskRow>

  /** `toStmtParams`: `is_completed` is 1 for a completed task and 0 otherwise. */
  function ToStmtParams(t: SimpleTask): (row: TaskRow)
    ensures row.subject == t.subject
    ensures row.isCompleted == 0 || row.isCompleted == 1
    ensures row.isCompleted == 1 <==> t.completed
  {
    TaskRow(t.subject, if t.completed then 1 else 0)
  }

  /** `toTask`: the row's id and subject; completed exactly when `is_completed == 1`. */
  function ToTask(id: int, row: TaskRow): (t: SimpleTask)
    ensures t.id == Assigned(id) && t.subject == row.subject
    ensures t.completed <==> row.isCompleted == 1
  {
    var t := SetId(NewTask(row.subject), id).value;
    if row.isCompleted == 1 then Complete(t) else t
  }

  /** The completed flag survives a write and a read. */
  lemma TaskRoundTrip(id: int, t: SimpleTask)
    ensures ToTask(id, ToStmtParams(t)) == WithId(id, DataOf(t))
  {
  }

  /** Every `is_completed` value this backend writes is 0 or 1. */
  predicate FlagsBinary(db: Db) {
    forall i :: 0 <= i < |db.entries| ==> db.entries[i].value.isCompleted in {0, 1}
  }

  /** A row as written by this backend is reproduced by reading it and writing it again. */
  lemma RowRoundTrip(id: int, row: TaskRow)
    requires row.isCompleted in {0, 1}
    ensures ToStmtParams(ToTask(id, row)) == row
  {
  }

  /**
   * `create`, inside a transaction: insert the row, then give the task the
   * new autoincrement id. A task that already has an id makes the INSERT
   * fail (its parameter set carries an extra `id`), and a driver failure of
   * the INSERT is the `insertFault`; either way the transaction is rolled
   * back and the table is as before.
   */
  function Create(db: Db, task: SimpleTask, insertFault: Option<string>): (s: Step<Db, SimpleTask>)
    requires Valid(db)
    ensures s.result.Ok? <==> task.id.Unassigned? && insertFault.None?
    ensures s.result.Err? ==> s.state == db
    ensures task.id.Assigned? ==> s.result == Err(DriverError(UNBOUND_ID_PARAM))
    ensures task.id.Unassigned? && insertFault.Some? ==> s.result == Err(DriverError(insertFault.value))
    ensures s.result.Ok? ==> s.result.value == WithId(db.nextId, DataOf(task))
    ensures s.result.Ok? ==> s.state.entries == db.entries + [Entry(db.nextId, ToStmtParams(task))]
    ensures s.result.Ok? ==> s.state.nextId == db.nextId + 1
    ensures Valid(s.state)
  {
    InTransaction(db, CreateBlock(db, task, insertFault))
  }

  /** The body of the create transaction: INSERT, then `setId` with the new id. */
  function CreateBlock(db: Db, task: SimpleTask, insertFault: Option<string>): Step<Db, SimpleTask> {
    if task.id.Assigned? then Step(db, Err(DriverError(UNBOUND_ID_PARAM)))
    else if insertFault.Some? then Step(db, Err(DriverError(insertFault.value)))
    else
      var (db', id) := Insert(db, ToStmtParams(task));
      Step(db', SetId(task, id))
  }

  /** `update`: after the existence check, rewrite subject and is_completed of that row only. */
  function Update(db: Db, task: SimpleTask): (s: Step<Db, ()>)
    requires Valid(db)
    ensures s.result.Ok? <==> task.id.Assigned? && Has(db.entries, task.id.id)
    ensures s.result.Err? ==> s.state == db
    ensures task.id.Unassigned? ==> s.result == Err(InvalidArgument(""))
    ensures task.id.Assigned? && !Has(db.entries, task.id.id) ==> s.result == Err(NotFound(""))
    ensures s.result.Ok? ==>
      && |s.state.entries| == |db.entries|
      && (forall i :: 0 <= i < |db.entries| ==>
            s.state.entries[i] ==
              (if db.entries[i].id == task.id.id then Entry(task.id.id, ToStmtParams(task)) else db.entries[i]))
    ensures s.state.nextId == db.nextId && Valid(s.state)
  {
    match AssertExists(task.id, db.entries)
    case Err(e) => Step(db, Err(e))
    case Ok(_) => Step(Table(Put(db.entries, task.id.id, ToStmtParams(task)), db.nextId), Ok(()))
  }

  /** `delete`: after the existence check, remove that row; the others keep their ids and order. */
  function Delete(db: Db, task: SimpleTask): (s: Step<Db, ()>)
    requires Valid(db)
    ensures s.result.Ok? <==> task.id.Assigned? && Has(db.entries, task.id.id)
    ensures s.result.Err? ==> s.state == db
    ensures task.id.Unassigned? ==> s.result == Err(InvalidArgument(""))
    ensures task.id.Assigned? && !Has(db.entries, task.id.id) ==> s.result == Err(NotFound(""))
    ensures s.result.Ok? ==>
      forall k :: 0 <= k < |db.entries| && db.entries[k].id == task.id.id ==>
        s.state.entries == db.entries[..k] + db.entries[k + 1..]
    ensures s.state.nextId == db.nextId && Valid(s.state)
  {
    match AssertExists(task.id, db.entries)
    case Err(e) => Step(db, Err(e))
    case Ok(_) =>
      var entries := Remove(db.entries, task.id.id);
      RemoveCutsAny(db.entries, task.id.id);
      Step(Table(entries, db.nextId), Ok(()))
  }

  /** `getAll`: every row mapped to a task, in table order. */
  function GetAll(db: Db): (ts: seq<SimpleTask>)
    ensures |ts| == |db.entries|
    ensures forall i :: 0 <= i < |ts| ==> ts[i].id == Assigned(db.entries[i].id)
    ensures forall i :: 0 <= i < |ts| ==> ts[i].subject == db.entries[i].value.subject
    ensures forall i :: 0 <= i < |ts| ==> (ts[i].completed <==> db.entries[i].value.isCompleted == 1)
  {
    seq(|db.entries|, i requires 0 <= i < |db.entries| => ToTask(db.entries[i].id, db.entries[i].value))
  }

  /** The mutations only ever write 0 or 1 into `is_completed`. */
  lemma MutationsKeepFlagsBinary(db: Db, task: SimpleTask, insertFault: Option<string>)
    requires Valid(db) && FlagsBinary(db)
    ensures FlagsBinary(Create(db, task, insertFault).state)
    ensures FlagsBinary(Update(db, task).state)
    ensures FlagsBinary(Delete(db, task).state)
  {
    var d := Delete(db, task).state;
    forall i | 0 <= i < |d.entries|
      ensures d.entries[i].value.isCompleted in {0, 1}
    {
      assert d.entries[i] in db.entries;
    }
  }

  /** A created task is read back by `getAll` as the last task, with its new id and flag. */
  lemma CreateThenGetAll(db: Db, task: SimpleTask)
    requires Valid(db) && task.id.Unassigned?
    ensures
      var s := Create(db, task, None);
      && s.result.Ok?
      && GetAll(s.state) == GetAll(db) + [s.result.value]
  {
    var s := Create(db, task, None);
    assert GetAll(s.state)[|db.entries|] == WithId(db.nextId, DataOf(task));
  }
}
