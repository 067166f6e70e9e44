/**
 * The multi-user SQL backend for tasks: table `tasks(id, subject,
 * description, status, priority, user_id)` with an autoincrement id. Reads
 * are scoped by the author's user id; the existence check before update and
 * delete looks at the id alone.
 */
module TaskSqliteRepository {
  import opened Outcomes
  import opened Identity
  import opened Store
  import TaskModel
  import UserModel
  import Priority
  import Status
  import Decimal

  /** The non-id columns of one row of `tasks`. */
  datatype TaskRow = TaskRow(subject: string, description: string, priority: int, status: string, userId: int)

  /** A task together with the user it belongs to. */
  datatype OwnedTask = OwnedTask(task: TaskModel.Task, owner: UserModel.User)

  type Db = Table<TaskRow>

  /** `toStmtParams`: the task's five data fields and its owner's id. */
  function ToStmtParams(t: OwnedTask): (row: TaskRow)
    requires t.owner.id.Assigned?
    ensures row.subject == t.task.subject && row.description == t.task.description
    ensures row.priority == t.task.priority && row.status == t.task.status
    ensures row.userId == UserModel.GetId(t.owner)
  {
    TaskRow(t.task.subject, t.task.description, t.task.priority, t.task.status, UserModel.GetId(t.owner))
  }

  /**
   * `toTask`: rebuild the task through the validating constructor, give it the
   * row's id and attach the author it was looked up for.
   */
  function ToTask(id: int, row: TaskRow, author: UserModel.User): (r: Result<OwnedTask>)
    ensures r.Ok? <==> Priority.IsPriority(row.priority) && Status.IsStatus(row.status)
    ensures r.Err? ==> r.error.InvalidArgument?
    ensures r.Ok? ==> r.value.owner == author
    ensures r.Ok? ==> r.value.task == TaskModel.Task(Assigned(id), row.subject, row.description, row.priority, row.status)
  {
    var t :- TaskModel.NewTask(row.subject, row.description, row.priority, row.status);
    Ok(OwnedTask(TaskModel.SetId(t, id).value, author))
  }

  /** A valid task written under its owner is read back unchanged, now carrying its id. */
  lemma TaskRoundTrip(id: int, t: OwnedTask)
    requires TaskModel.Valid(t.task) && t.owner.id.Assigned?
    ensures ToTask(id, ToStmtParams(t), t.owner) == Ok(OwnedTask(t.task.(id := Assigned(id)), t.owner))
  {
  }

  /** Every stored row holds a valid priority and status. */
  predicate RowsValid(db: Db) {
    forall i :: 0 <= i < |db.entries| ==>
      Priority.IsPriority(db.entries[i].value.priority) && Status.IsStatus(db.entries[i].value.status)
  }

  /**
   * `create`, inside a transaction: insert the row, then give the task the
   * new autoincrement id. A task that already has an id makes the INSERT
   * fail (its parameter set carries an extra `id`), and a driver failure of
   * the INSERT is the `insertFault`; either way the transaction is rolled
   * back, the same error is raised and the table is as before.
   */
  function Create(db: Db, t: OwnedTask, insertFault: Option<string>): (s: Step<Db, OwnedTask>)
    requires Valid(db) && t.owner.id.Assigned?
    ensures s.result.Ok? <==> t.task.id.Unassigned? && insertFault.None?
    ensures s.result.Err? ==> s.state == db
    ensures t.task.id.Assigned? ==> s.result == Err(DriverError(UNBOUND_ID_PARAM))
    ensures t.task.id.Unassigned? && insertFault.Some? ==> s.result == Err(DriverError(insertFault.value))
    ensures s.result.Ok? ==> s.result.value == OwnedTask(t.task.(id := Assigned(db.nextId)), t.owner)
    ensures s.result.Ok? ==> s.state.entries == db.entries + [Entry(db.nextId, ToStmtParams(t))]
    ensures s.result.Ok? ==> s.state.nextId == db.nextId + 1
    ensures Valid(s.state)
  {
    InTransaction(db, CreateBlock(db, t, insertFault))
  }

  /** The body of the create transaction: INSERT, then `setId` with the new id. */
  function CreateBlock(db: Db, t: OwnedTask, insertFault: Option<string>): Step<Db, OwnedTask>
    requires t.owner.id.Assigned?
  {
    if t.task.id.Assigned? then Step(db, Err(DriverError(UNBOUND_ID_PARAM)))
    else if insertFault.Some? then Step(db, Err(DriverError(insertFault.value)))
    else
      var (db', id) := Insert(db, ToStmtParams(t));
      match TaskModel.SetId(t.task, id)
      case Err(e) => Step(db', Err(e))
      case Ok(task) => Step(db', Ok(OwnedTask(task, t.owner)))
  }

  /**
   * `update`: the existence check looks at the id only; then all five data
   * columns of that row, user_id included, are overwritten. The owner's id is
   * read only once the check has passed.
   */
  function Update(db: Db, t: OwnedTask): (s: Step<Db, ()>)
    requires Valid(db)
    requires t.task.id.Assigned? && Has(db.entries, t.task.id.id) ==> t.owner.id.Assigned?
    ensures s.result.Ok? <==> t.task.id.Assigned? && Has(db.entries, t.task.id.id)
    ensures s.result.Err? ==> s.state == db
    ensures t.task.id.Unassigned? ==> s.result == Err(InvalidArgument(""))
    ensures t.task.id.Assigned? && !Has(db.entries, t.task.id.id) ==> s.result == Err(NotFound(""))
    ensures s.result.Ok? ==>
      && |s.state.entries| == |db.entries|
      && (forall i :: 0 <= i < |db.entries| ==>
            s.state.entries[i] ==
              (if db.entries[i].id == t.task.id.id then Entry(t.task.id.id, ToStmtParams(t)) else db.entries[i]))
    ensures s.state.nextId == db.nextId && Valid(s.state)
  {
    match AssertExists(t.task.id, db.entries)
    case Err(e) => Step(db, Err(e))
    case Ok(_) => Step(Table(Put(db.entries, t.task.id.id, ToStmtParams(t)), db.nextId), Ok(()))
  }

  /** `delete`: the existence check looks at the id only; then only that row is removed. */
  function Delete(db: Db, t: OwnedTask): (s: Step<Db, ()>)
    requires Valid(db)
    ensures s.result.Ok? <==> t.task.id.Assigned? && Has(db.entries, t.task.id.id)
    ensures s.result.Err? ==> s.state == db
    ensures t.task.id.Unassigned? ==> s.result == Err(InvalidArgument(""))
    ensures t.task.id.Assigned? && !Has(db.entries, t.task.id.id) ==> s.result == Err(NotFound(""))
    ensures s.result.Ok? ==>
      forall k :: 0 <= k < |db.entries| && db.entries[k].id == t.task.id.id ==>
        s.state.entries == db.entries[..k] + db.entries[k + 1..]
    ensures s.state.nextId == db.nextId && Valid(s.state)
  {
    match AssertExists(t.task.id, db.entries)
    case Err(e) => Step(db, Err(e))
    case Ok(_) =>
      var entries := Remove(db.entries, t.task.id.id);
      RemoveCutsAny(db.entries, t.task.id.id);
      Step(Table(entries, db.nextId), Ok(()))
  }

  /** The row filter "has this id and belongs to this user". */
  function IdAndOwner(id: int, userId: int): Entry<TaskRow> -> bool {
    (e: Entry<TaskRow>) => e.id == id && e.value.userId == userId
  }

  /** The row filter "belongs to this user". */
  function OwnedBy(userId: int): Entry<TaskRow> -> bool {
    (e: Entry<TaskRow>) => e.value.userId == userId
  }

  function TaskNotFound(id: int): Error {
    NotFound("Can't find task with id = " + Decimal.IntToString(id))
  }

  /**
   * `find(id, author)`: the row with that id whose user_id is the author's;
   * any other row, however its id matches, is invisible.
   */
  function Find(db: Db, id: int, author: UserModel.User): (r: Result<OwnedTask>)
    requires author.id.Assigned?
    ensures r == Err(TaskNotFound(id)) <==>
      forall i :: 0 <= i < |db.entries| ==> !(db.entries[i].id == id && db.entries[i].value.userId == UserModel.GetId(author))
    ensures r.Ok? ==> r.value.owner == author && r.value.task.id == Assigned(id)
    ensures r.Ok? ==>
      exists i ::
        && 0 <= i < |db.entries|
        && db.entries[i].id == id
        && db.entries[i].value.userId == UserModel.GetId(author)
        && db.entries[i].value.subject == r.value.task.subject
        && db.entries[i].value.description == r.value.task.description
        && db.entries[i].value.priority == r.value.task.priority
        && db.entries[i].value.status == r.value.task.status
    ensures r.Err? && r != Err(TaskNotFound(id)) ==> r.error.InvalidArgument?
    ensures forall i :: FirstOwnedRow(db.entries, id, UserModel.GetId(author), i) ==>
      r == ToTask(db.entries[i].id, db.entries[i].value, author)
  {
    match FirstWhere(db.entries, IdAndOwner(id, UserModel.GetId(author)))
    case None => Err(TaskNotFound(id))
    case Some(k) =>
      assert FirstOwnedRow(db.entries, id, UserModel.GetId(author), k);
      ToTask(db.entries[k].id, db.entries[k].value, author)
  }

  /** Row i has this id and user id, and no earlier row has both. */
  predicate FirstOwnedRow(es: seq<Entry<TaskRow>>, id: int, userId: int, i: int) {
    && 0 <= i < |es| && es[i].id == id && es[i].value.userId == userId
    && forall j :: 0 <= j < i ==> !(es[j].id == id && es[j].value.userId == userId)
  }

  /** Rebuild each row as a task of the author, stopping at the first invalid row. */
  function ToTasks(es: seq<Entry<TaskRow>>, author: UserModel.User): (r: Result<seq<OwnedTask>>)
    ensures r.Ok? ==> |r.value| == |es|
    ensures r.Err? ==> r.error.InvalidArgument?
    ensures r.Ok? ==> forall i :: 0 <= i < |es| ==> ToTask(es[i].id, es[i].value, author) == Ok(r.value[i])
    ensures (forall i :: 0 <= i < |es| ==> ToTask(es[i].id, es[i].value, author).Ok?) ==> r.Ok?
  {
    if |es| == 0 then Ok([])
    else
      var t :- ToTask(es[0].id, es[0].value, author);
      var rest :- ToTasks(es[1..], author);
      Ok([t] + rest)
  }

  /**
   * `getUserTasks`: the author's rows in table order, each rebuilt as a task;
   * an author without rows raises NotFound rather than getting an empty list.
   */
  function GetUserTasks(db: Db, author: UserModel.User): (r: Result<seq<OwnedTask>>)
    requires author.id.Assigned?
    ensures r == Err(NotFound("Can't find tasks for user " + author.login + ".")) <==>
      forall i :: 0 <= i < |db.entries| ==> db.entries[i].value.userId != UserModel.GetId(author)
    ensures r.Ok? ==> |r.value| == |Where(db.entries, OwnedBy(UserModel.GetId(author)))| > 0
    ensures r.Ok? ==> forall i :: 0 <= i < |r.value| ==>
      var e := Where(db.entries, OwnedBy(UserModel.GetId(author)))[i];
      && ToTask(e.id, e.value, author) == Ok(r.value[i])
      && r.value[i].task.id == Assigned(e.id) && r.value[i].owner == author
    ensures r.Ok? <==>
      var mine := Where(db.entries, OwnedBy(UserModel.GetId(author)));
      |mine| > 0 && forall i :: 0 <= i < |mine| ==> ToTask(mine[i].id, mine[i].value, author).Ok?
    ensures r.Err? && !r.error.NotFound? ==> r.error.InvalidArgument?
  {
    var mine := Where(db.entries, OwnedBy(UserModel.GetId(author)));
    WhereMembers(db.entries, OwnedBy(UserModel.GetId(author)));
    if |mine| == 0 then
      assert forall i :: 0 <= i < |db.entries| ==> db.entries[i].value.userId != UserModel.GetId(author);
      Err(NotFound("Can't find tasks for user " + author.login + "."))
    else
      assert mine[0] in db.entries;
      ToTasks(mine, author)
  }

  /** Reads of a table written only with valid tasks never fail on validation. */
  lemma ValidRowsReadBack(db: Db, author: UserModel.User, id: int)
    requires RowsValid(db) && author.id.Assigned?
    ensures Find(db, id, author).Ok? || Find(db, id, author) == Err(TaskNotFound(id))
    ensures GetUserTasks(db, author).Ok? || GetUserTasks(db, author).error.NotFound?
  {
    var mine := Where(db.entries, OwnedBy(UserModel.GetId(author)));
    WhereMembers(db.entries, OwnedBy(UserModel.GetId(author)));
    assert forall i :: 0 <= i < |mine| ==> ToTask(mine[i].id, mine[i].value, author).Ok? by {
      forall i | 0 <= i < |mine|
        ensures ToTask(mine[i].id, mine[i].value, author).Ok?
      {
        assert mine[i] in db.entries;
      }
    }
  }

  /** Creating and updating with valid tasks, and deleting, keep every row valid. */
  lemma MutationsKeepRowsValid(db: Db, t: OwnedTask, insertFault: Option<string>)
    requires Valid(db) && RowsValid(db) && TaskModel.Valid(t.task) && t.owner.id.Assigned?
    ensures RowsValid(Create(db, t, insertFault).state)
    ensures RowsValid(Update(db, t).state)
    ensures RowsValid(Delete(db, t).state)
  {
    var d := Delete(db, t).state;
    forall i | 0 <= i < |d.entries|
      ensures Priority.IsPriority(d.entries[i].value.priority) && Status.IsStatus(d.entries[i].value.status)
    {
      assert d.entries[i] in db.entries;
    }
  }

  /** On a fresh table the first two creates get ids 1 and 2, stored with all five columns. */
  lemma CreateOnFreshTable(a: OwnedTask, b: OwnedTask)
    requires a.task.id.Unassigned? && b.task.id.Unassigned?
    requires a.owner.id.Assigned? && b.owner.id.Assigned?
    ensures
      var s1 := Create(EmptyTable(), a, None);
      var s2 := Create(s1.state, b, None);
      && s1.result.Ok? && s2.result.Ok?
      && s1.result.value.task.id == Assigned(1)
      && s2.result.value.task.id == Assigned(2)
      && s2.state.entries == [Entry(1, ToStmtParams(a)), Entry(2, ToStmtParams(b))]
  {
    var s1 := Create(EmptyTable(), a, None);
    assert s1.result.Ok? && s1.state.nextId == 2;
    assert s1.state.entries == [Entry(1, ToStmtParams(a))];
    var s2 := Create(s1.state, b, None);
    assert s2.result.Ok?;
    assert s2.state.entries == s1.state.entries + [Entry(2, ToStmtParams(b))];
  }

  /**
   * The existence check ignores ownership: a task that names another user's
   * row by id is accepted, and the row then belongs to the task's owner, so
   * the original author's `find` no longer sees it.
   */
  lemma UpdateIgnoresOwner(db: Db, k: nat, t: OwnedTask, original: UserModel.User)
    requires Valid(db) && k < |db.entries|
    requires original.id.Assigned? && db.entries[k].value.userId == UserModel.GetId(original)
    requires t.owner.id.Assigned? && UserModel.GetId(t.owner) != UserModel.GetId(original)
    requires t.task.id == Assigned(db.entries[k].id)
    ensures Update(db, t).result.Ok?
    ensures Update(db, t).state.entries[k].value.userId == UserModel.GetId(t.owner)
    ensures Find(Update(db, t).state, db.entries[k].id, original) == Err(TaskNotFound(db.entries[k].id))
  {
    var d := Update(db, t).state;
    forall i | 0 <= i < |d.entries|
      ensures !(d.entries[i].id == db.entries[k].id && d.entries[i].value.userId == UserModel.GetId(original))
    {
      if d.entries[i].id == db.entries[k].id {
        assert db.entries[i].id == db.entries[k].id;
      }
    }
  }

  /** Delete, like update, accepts a row owned by someone else. */
  lemma DeleteIgnoresOwner(db: Db, k: nat, t: OwnedTask)
    requires Valid(db) && k < |db.entries| && t.task.id == Assigned(db.entries[k].id)
    ensures Delete(db, t).result.Ok?
    ensures Delete(db, t).state.entries == db.entries[..k] + db.entries[k + 1..]
  {
  }

  /**
   * A default task created on a fresh table is stored as row 1 with an empty
   * description, priority 3 and status "New"; raising its priority and
   * updating changes only that column; deleting it leaves its owner with no
   * tasks, which `getUserTasks` reports as NotFound.
   */
  lemma DefaultTaskLifecycle(owner: UserModel.User, subject: string)
    requires owner.id.Assigned?
    ensures
      var s1 := Create(EmptyTable(), OwnedTask(TaskModel.DefaultTask(subject), owner), None);
      var t := s1.result.value.(task := TaskModel.SetPriority(s1.result.value.task, Priority.HIGHEST).value);
      var s2 := Update(s1.state, t);
      var s3 := Delete(s2.state, t);
      && s1.result.Ok?
      && s1.state.entries == [Entry(1, TaskRow(subject, "", 3, "New", UserModel.GetId(owner)))]
      && s2.result.Ok?
      && s2.state.entries == [Entry(1, TaskRow(subject, "", 5, "New", UserModel.GetId(owner)))]
      && s3.result.Ok?
      && s3.state.entries == []
      && GetUserTasks(s3.state, owner).Err?
      && GetUserTasks(s3.state, owner).error.NotFound?
  {
    var s1 := Create(EmptyTable(), OwnedTask(TaskModel.DefaultTask(subject), owner), None);
    assert s1.state.entries == [Entry(1, TaskRow(subject, "", 3, "New", UserModel.GetId(owner)))];
    var t := s1.result.value.(task := TaskModel.SetPriority(s1.result.value.task, Priority.HIGHEST).value);
    assert t.task.id == Assigned(1);
    var s2 := Update(s1.state, t);
    assert s2.state.entries[0] == Entry(1, TaskRow(subject, "", 5, "New", UserModel.GetId(owner)));
    var s3 := Delete(s2.state, t);
    assert s3.state.entries == s2.state.entries[..0] + s2.state.entries[1..];
  }
}
