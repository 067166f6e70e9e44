/**
 * The task shape the CSV and SqliteRepository backends are written against:
 * an id, a subject and a completed flag (`complete()` / `isCompleted()`).
 */
module SimpleTask {
  import opened Outcomes
  import opened Identity

  datatype SimpleTask = SimpleTask(id: Ident, subject: string, completed: bool)

  /** The stored part of a task: everything except its id. */
  datatype TaskData = TaskData(subject: string, completed: bool)

  function DataOf(t: SimpleTask): TaskData {
    TaskData(t.subject, t.completed)
  }

  /** A task rebuilt from stored data under a known id. */
  function WithId(id: int, d: TaskData): (t: SimpleTask)
    ensures t.id == Assigned(id) && DataOf(t) == d
  {
    SimpleTask(Assigned(id), d.subject, d.completed)
  }

  /** `new Task($subject)`: not completed, no id. */
  function NewTask(subject: string): (t: SimpleTask)
    ensures t.id.Unassigned? && t.subject == subject && !t.completed
  {
    SimpleTask(Unassigned, subject, false)
  }

  function Complete(t: SimpleTask): (r: SimpleTask)
    ensures r.completed && r.(completed := t.completed) == t
  {
    t.(completed := true)
  }

  function SetId(t: SimpleTask, n: int): (r: Result<SimpleTask>)
    ensures r.Ok? <==> t.id.Unassigned?
    ensures r.Ok? ==> r.value == WithId(n, DataOf(t))
    ensures r.Err? ==> r.error == BadMethodCall(ALREADY_SET)
  {
    var i :- AssignOnce(t.id, n);
    Ok(t.(id := i))
  }
}
