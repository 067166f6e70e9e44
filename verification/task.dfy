/**
 * The Task entity: subject, description, priority and status, with an id
 * the repository assigns once. Priority and status are validated by the
 * constructor and by every setter.
 */
module TaskModel {
  import opened Outcomes
  import opened Identity
  import Priority
  import Status
  import Decimal

  datatype Task = Task(id: Ident, subject: string, description: string, priority: int, status: string)

  /** The class invariant every Task object keeps. */
  predicate Valid(t: Task) {
    Priority.IsPriority(t.priority) && Status.IsStatus(t.status)
  }

  function InvalidPriority(p: int): Error {
    InvalidArgument("Invalid priority " + Decimal.IntToString(p) + " given.")
  }

  function InvalidStatus(s: string): Error {
    InvalidArgument("Invalid status " + s + " given.")
  }

  /** `setPriority`: accepted exactly when p is one of the five priorities; only that field changes. */
  function SetPriority(t: Task, p: int): (r: Result<Task>)
    ensures r.Ok? <==> Priority.IsPriority(p)
    ensures r.Ok? ==> r.value.priority == p && r.value.(priority := t.priority) == t
    ensures r.Err? ==> r.error == InvalidPriority(p)
  {
    if !Priority.IsPriority(p) then Err(InvalidPriority(p)) else Ok(t.(priority := p))
  }

  /** `setStatus`: accepted exactly when s is one of the four statuses; only that field changes. */
  function SetStatus(t: Task, s: string): (r: Result<Task>)
    ensures r.Ok? <==> Status.IsStatus(s)
    ensures r.Ok? ==> r.value.status == s && r.value.(status := t.status) == t
    ensures r.Err? ==> r.error == InvalidStatus(s)
  {
    if !Status.IsStatus(s) then Err(InvalidStatus(s)) else Ok(t.(status := s))
  }

  /**
   * The constructor: stores subject and description, then runs the priority
   * setter and then the status setter, so a bad priority is reported first.
   */
  function NewTask(subject: string, description: string, priority: int, status: string): (r: Result<Task>)
    ensures r.Ok? <==> Priority.IsPriority(priority) && Status.IsStatus(status)
    ensures r.Ok? ==> r.value == Task(Unassigned, subject, description, priority, status) && Valid(r.value)
    ensures !Priority.IsPriority(priority) ==> r == Err(InvalidPriority(priority))
    ensures Priority.IsPriority(priority) && !Status.IsStatus(status) ==> r == Err(InvalidStatus(status))
  {
    var t0 := Task(Unassigned, subject, description, 0, "");
    var t1 :- SetPriority(t0, priority);
    SetStatus(t1, status)
  }

  /** `new Task($subject)` with the declared defaults: description "", priority 3, status "New". */
  function DefaultTask(subject: string): (t: Task)
    ensures t.id == Unassigned && t.subject == subject
    ensures t.description == "" && t.priority == Priority.NORMAL && t.status == Status.STATUS_NEW
    ensures Valid(t)
  {
    NewTask(subject, "", Priority.NORMAL, Status.STATUS_NEW).value
  }

  /** `setSubject` changes the subject and nothing else. */
  function SetSubject(t: Task, s: string): (r: Task)
    ensures r.subject == s && r.(subject := t.subject) == t
  {
    t.(subject := s)
  }

  /** `setDescription` changes the description and nothing else. */
  function SetDescription(t: Task, d: string): (r: Task)
    ensures r.description == d && r.(description := t.description) == t
  {
    t.(description := d)
  }

  /** `setId`: the first call sets the id, a second raises BadMethodCall; nothing else changes. */
  function SetId(t: Task, n: int): (r: Result<Task>)
    ensures r.Ok? <==> !HasId(t)
    ensures r.Ok? ==> HasId(r.value) && GetId(r.value) == n && r.value.(id := t.id) == t
    ensures r.Err? ==> r.error == BadMethodCall(ALREADY_SET)
  {
    var i :- AssignOnce(t.id, n);
    Ok(t.(id := i))
  }

  function HasId(t: Task): bool { t.id.Assigned? }

  /** `getId` is only meaningful once an id has been set. */
  function GetId(t: Task): int
    requires HasId(t)
  {
    t.id.id
  }

  /** The validating setters keep the class invariant. */
  lemma SettersKeepValid(t: Task, p: int, s: string, text: string, n: int)
    requires Valid(t)
    ensures SetPriority(t, p).Ok? ==> Valid(SetPriority(t, p).value)
    ensures SetStatus(t, s).Ok? ==> Valid(SetStatus(t, s).value)
    ensures Valid(SetSubject(t, text)) && Valid(SetDescription(t, text))
    ensures SetId(t, n).Ok? ==> Valid(SetId(t, n).value)
  {
  }

  /** A fresh task has no id; the first setId gives it one, and the second is refused without effect. */
  lemma IdLifecycle(subject: string, n: int, m: int)
    ensures !HasId(DefaultTask(subject))
    ensures SetId(DefaultTask(subject), n).Ok?
    ensures GetId(SetId(DefaultTask(subject), n).value) == n
    ensures SetId(SetId(DefaultTask(subject), n).value, m) == Err(BadMethodCall(ALREADY_SET))
  {
  }
}
