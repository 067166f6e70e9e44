/**
 * The once-only id every entity carries: unset until the repository assigns
 * it, and assigning it a second time is refused.
 */
module Identity {
  import opened Outcomes

  datatype Ident = Unassigned | Assigned(id: int)

  const ALREADY_SET: string := "Id had been already set."

  /** `setId`: the first call records n; any later call raises BadMethodCall. */
  function AssignOnce(cur: Ident, n: int): (r: Result<Ident>)
    ensures r.Ok? <==> cur.Unassigned?
    ensures r.Ok? ==> r.value == Assigned(n)
    ensures r.Err? ==> r.error == BadMethodCall(ALREADY_SET)
  {
    if cur.Assigned? then Err(BadMethodCall(ALREADY_SET)) else Ok(Assigned(n))
  }

  /** After one assignment, a second one always fails, whatever ids are used. */
  lemma AssignTwiceFails(n: int, m: int)
    ensures AssignOnce(Unassigned, n).Ok?
    ensures AssignOnce(AssignOnce(Unassigned, n).value, m) == Err(BadMethodCall(ALREADY_SET))
  {
  }
}
