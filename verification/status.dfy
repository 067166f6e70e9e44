/** The four task statuses and the membership check the Task setters rely on. */
module Status {

  const STATUS_NEW: string := "New"
  const STATUS_IN_PROGRESS: string := "In progress"
  const STATUS_DELAYED: string := "Delayed"
  const STATUS_COMPLETED: string := "Completed"

  const Statuses: seq<string> := [STATUS_NEW, STATUS_IN_PROGRESS, STATUS_DELAYED, STATUS_COMPLETED]

  /** `in_array` over the four constants: exact, case-sensitive string equality. */
  function IsStatus(s: string): (b: bool)
    ensures b <==> s == "New" || s == "In progress" || s == "Delayed" || s == "Completed"
  {
    s in Statuses
  }

  /** Matching is case-sensitive and the empty string is not a status. */
  lemma ExactMatchOnly()
    ensures !IsStatus("new") && !IsStatus("NEW") && !IsStatus("completed")
    ensures !IsStatus("")
  {
    assert "new" != STATUS_NEW;
    assert "NEW" != STATUS_NEW;
    assert "completed" != STATUS_COMPLETED;
  }

  /** The Task default status "New" is accepted. */
  lemma DefaultIsStatus()
    ensures IsStatus(STATUS_NEW)
  {
  }
}
