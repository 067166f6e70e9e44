/** The five task priorities and the membership check the Task setters rely on. */
module Priority {

  const HIGHEST: int := 5
  const HIGH: int := 4
  const NORMAL: int := 3
  const LOW: int := 2
  const LOWEST: int := 1

  /** The accepted priorities, in the order the class lists them. */
  const Priorities: seq<int> := [HIGHEST, HIGH, NORMAL, LOW, LOWEST]

  /** `in_array` over the five constants. */
  function IsPriority(p: int): (b: bool)
    ensures b <==> LOWEST <= p <= HIGHEST
  {
    p in Priorities
  }

  /** The constants are strictly ordered from highest to lowest. */
  lemma ConstantsOrdered()
    ensures HIGHEST > HIGH > NORMAL > LOW > LOWEST
    ensures forall i, j :: 0 <= i < j < |Priorities| ==> Priorities[i] > Priorities[j]
  {
  }

  /** Exactly the five constants are accepted: nothing else, including 0, 6 and negatives. */
  lemma AcceptedAreTheConstants(p: int)
    ensures IsPriority(p) <==> p == HIGHEST || p == HIGH || p == NORMAL || p == LOW || p == LOWEST
    ensures !IsPriority(0) && !IsPriority(6) && (p < 0 ==> !IsPriority(p))
  {
  }

  /** The Task default priority is NORMAL, and it is accepted. */
  lemma DefaultIsPriority()
    ensures NORMAL == 3 && IsPriority(NORMAL)
  {
  }
}
