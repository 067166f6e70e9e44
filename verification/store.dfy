/**
 * The id-keyed record store every backend is built on.
 *
 * Entries are kept in order: for the CSV backend that is the insertion order
 * of a PHP array keyed by id, for the SQL backends the rowid order of a table.
 * A Table adds the counter that hands out ids.
 */
module Store {
  import opened Outcomes
  import opened Identity

  datatype Entry<V> = Entry(id: int, value: V)

  /** Some entry carries this id. */
  predicate Has<V>(es: seq<Entry<V>>, id: int) {
    exists i :: 0 <= i < |es| && es[i].id == id
  }

  /** No id appears twice: what a PHP array key or a primary key guarantees. */
  predicate UniqueIds<V>(es: seq<Entry<V>>) {
    forall i, j :: 0 <= i < j < |es| ==> es[i].id != es[j].id
  }

  /** The position of the first entry satisfying p, if there is one. */
  function FirstWhere<V>(es: seq<Entry<V>>, p: Entry<V> -> bool): (r: Option<nat>)
    ensures r.None? <==> forall i :: 0 <= i < |es| ==> !p(es[i])
    ensures r.Some? ==> r.value < |es| && p(es[r.value])
    ensures r.Some? ==> forall j :: 0 <= j < r.value ==> !p(es[j])
  {
    if |es| == 0 then None
    else if p(es[0]) then Some(0)
    else match FirstWhere(es[1..], p)
      case None => None
      case Some(k) => Some(k + 1)
  }

  /** Appending entries does not move a match that already exists. */
  lemma FirstWhereAppend<V>(a: seq<Entry<V>>, b: seq<Entry<V>>, p: Entry<V> -> bool)
    requires FirstWhere(a, p).Some?
    ensures FirstWhere(a + b, p) == FirstWhere(a, p)
  {
    var k := FirstWhere(a, p).value;
    var r := FirstWhere(a + b, p);
    assert (a + b)[k] == a[k];
    assert forall j :: 0 <= j < k ==> (a + b)[j] == a[j];
  }

  /** The entries satisfying p, in their original order. */
  function Where<V>(es: seq<Entry<V>>, p: Entry<V> -> bool): (r: seq<Entry<V>>)
    ensures |r| <= |es|
  {
    if |es| == 0 then [] else (if p(es[0]) then [es[0]] else []) + Where(es[1..], p)
  }

  /** The filter keeps exactly the entries satisfying p. */
  lemma {:induction false} WhereMembers<V>(es: seq<Entry<V>>, p: Entry<V> -> bool)
    ensures forall i :: 0 <= i < |Where(es, p)| ==> Where(es, p)[i] in es && p(Where(es, p)[i])
    ensures forall i :: 0 <= i < |es| && p(es[i]) ==> es[i] in Where(es, p)
    decreases |es|
  {
    if |es| > 0 {
      WhereMembers(es[1..], p);
    }
  }

  /** A filter that keeps every entry changes nothing. */
  lemma {:induction false} WhereAll<V>(es: seq<Entry<V>>, p: Entry<V> -> bool)
    requires forall i :: 0 <= i < |es| ==> p(es[i])
    ensures Where(es, p) == es
    decreases |es|
  {
    if |es| > 0 {
      WhereAll(es[1..], p);
      assert [es[0]] + es[1..] == es;
    }
  }

  /** The entry test "carries this id" and its negation, as named filters. */
  function IdIs<V>(id: int): Entry<V> -> bool {
    (e: Entry<V>) => e.id == id
  }

  function IdIsNot<V>(id: int): Entry<V> -> bool {
    (e: Entry<V>) => e.id != id
  }

  /** The value stored under id (the first one, should ids repeat). */
  function Find<V>(es: seq<Entry<V>>, id: int): (r: Option<V>)
    ensures r.Some? <==> Has(es, id)
    ensures UniqueIds(es) ==> forall i :: 0 <= i < |es| && es[i].id == id ==> r == Some(es[i].value)
  {
    match FirstWhere(es, IdIs(id))
    case None => None
    case Some(k) => Some(es[k].value)
  }

  /**
   * PHP's `$entries[$id] = $v`: an existing key keeps its position and gets
   * the new value; a new key is appended at the end.
   */
  function Put<V>(es: seq<Entry<V>>, id: int, v: V): (r: seq<Entry<V>>)
    requires UniqueIds(es)
    ensures UniqueIds(r) && Has(r, id)
    ensures Has(es, id) ==> |r| == |es|
    ensures Has(es, id) ==> forall i :: 0 <= i < |es| ==> r[i] == (if es[i].id == id then Entry(id, v) else es[i])
    ensures !Has(es, id) ==> r == es + [Entry(id, v)]
  {
    if Has(es, id) then
      var r := seq(|es|, i requires 0 <= i < |es| => if es[i].id == id then Entry(id, v) else es[i]);
      assert forall i :: 0 <= i < |r| ==> r[i].id == es[i].id;
      assert Has(r, id) by {
        var k :| 0 <= k < |es| && es[k].id == id;
        assert r[k].id == id;
      }
      r
    else
      var r := es + [Entry(id, v)];
      assert r[|es|].id == id;
      r
  }

  /** The ids of the entries, in entry order: PHP's `array_keys`. */
  function Ids<V>(es: seq<Entry<V>>): (ks: seq<int>)
    ensures |ks| == |es| && forall i :: 0 <= i < |es| ==> ks[i] == es[i].id
  {
    seq(|es|, i requires 0 <= i < |es| => es[i].id)
  }

  /** A Put leaves the key order alone for a present key and appends a new one. */
  lemma IdsPut<V>(es: seq<Entry<V>>, id: int, v: V)
    requires UniqueIds(es)
    ensures id in Ids(es) ==> Ids(Put(es, id, v)) == Ids(es)
    ensures id !in Ids(es) ==> Ids(Put(es, id, v)) == Ids(es) + [id]
  {
    if id in Ids(es) {
      var k :| 0 <= k < |es| && Ids(es)[k] == id;
      assert Has(es, id);
    }
  }

  /** Reading back after a Put: the written key has the new value, every other key its old one. */
  lemma FindPut<V>(es: seq<Entry<V>>, id: int, v: V, other: int)
    requires UniqueIds(es)
    ensures Find(Put(es, id, v), id) == Some(v)
    ensures other != id ==> Find(Put(es, id, v), other) == Find(es, other)
  {
    var r := Put(es, id, v);
    var k :| 0 <= k < |r| && r[k].id == id;
    assert r[k] == Entry(id, v);
    if other != id && Has(es, other) {
      var j :| 0 <= j < |es| && es[j].id == other;
      assert r[j] == es[j];
    }
    if other != id && Has(r, other) {
      var j :| 0 <= j < |r| && r[j].id == other;
      if Has(es, id) {
        assert r[j] == es[j];
      } else {
        assert j < |es| && r[j] == es[j];
      }
    }
  }

  /** PHP's `unset($entries[$id])`, SQL's `DELETE ... WHERE id = :id`: every other entry stays, in order. */
  function Remove<V>(es: seq<Entry<V>>, id: int): (r: seq<Entry<V>>)
    ensures !Has(r, id)
    ensures forall i :: 0 <= i < |r| ==> r[i] in es
    ensures forall i :: 0 <= i < |es| && es[i].id != id ==> es[i] in r
    ensures !Has(es, id) ==> r == es
  {
    var r := Where(es, IdIsNot(id));
    WhereMembers(es, IdIsNot(id));
    assert !Has(es, id) ==> r == es by {
      if !Has(es, id) {
        WhereAll(es, IdIsNot(id));
      }
    }
    r
  }

  lemma UniqueTail<V>(es: seq<Entry<V>>)
    requires UniqueIds(es) && |es| > 0
    ensures UniqueIds(es[1..])
  {
    var tail := es[1..];
    forall i, j | 0 <= i < j < |tail|
      ensures tail[i].id != tail[j].id
    {
      assert tail[i] == es[i + 1] && tail[j] == es[j + 1];
    }
  }

  /** Slicing identity: the cut of es at k, seen from its first element. */
  lemma ConsCut<V>(es: seq<Entry<V>>, k: nat)
    requires 0 < k < |es|
    ensures [es[0]] + (es[1..][..k - 1] + es[1..][k..]) == es[..k] + es[k + 1..]
  {
    assert es[1..][..k - 1] == es[1..k];
    assert es[1..][k..] == es[k + 1..];
    assert es[..k] == [es[0]] + es[1..k];
  }

  /** Filtering out a present id of a unique-keyed sequence cuts out exactly its one entry. */
  lemma {:induction false} WhereCutsOne<V>(es: seq<Entry<V>>, id: int, k: nat)
    requires UniqueIds(es) && k < |es| && es[k].id == id
    ensures Where(es, IdIsNot(id)) == es[..k] + es[k + 1..]
    decreases k
  {
    var p: Entry<V> -> bool := IdIsNot(id);
    var tail := es[1..];
    if k == 0 {
      forall i | 0 <= i < |tail|
        ensures p(tail[i])
      {
        assert tail[i] == es[i + 1];
      }
      WhereAll(tail, p);
    } else {
      UniqueTail(es);
      assert tail[k - 1] == es[k];
      WhereCutsOne(tail, id, k - 1);
      assert p(es[0]);
      ConsCut(es, k);
    }
  }

  /** Removing a present id from a unique-keyed sequence cuts out exactly its one entry. */
  lemma RemoveCutsOne<V>(es: seq<Entry<V>>, id: int, k: nat)
    requires UniqueIds(es) && k < |es| && es[k].id == id
    ensures Remove(es, id) == es[..k] + es[k + 1..]
  {
    WhereCutsOne(es, id, k);
  }

  /** Cutting one entry out of a unique-keyed sequence leaves it unique-keyed. */
  lemma CutKeepsUnique<V>(es: seq<Entry<V>>, k: nat)
    requires UniqueIds(es) && k < |es|
    ensures UniqueIds(es[..k] + es[k + 1..])
  {
    var r := es[..k] + es[k + 1..];
    forall i, j | 0 <= i < j < |r|
      ensures r[i].id != r[j].id
    {
      var i' := if i < k then i else i + 1;
      var j' := if j < k then j else j + 1;
      assert r[i] == es[i'] && r[j] == es[j'];
    }
  }

  /** Removal never creates a duplicate id. */
  lemma RemoveKeepsUnique<V>(es: seq<Entry<V>>, id: int)
    requires UniqueIds(es)
    ensures UniqueIds(Remove(es, id))
  {
    if Has(es, id) {
      var k :| 0 <= k < |es| && es[k].id == id;
      RemoveCutsOne(es, id, k);
      CutKeepsUnique(es, k);
    }
  }

  /** Removal of a present id, at whatever position it sits, is the cut at that position. */
  lemma RemoveCutsAny<V>(es: seq<Entry<V>>, id: int)
    requires UniqueIds(es)
    ensures forall k :: 0 <= k < |es| && es[k].id == id ==> Remove(es, id) == es[..k] + es[k + 1..]
    ensures UniqueIds(Remove(es, id))
  {
    forall k | 0 <= k < |es| && es[k].id == id
      ensures Remove(es, id) == es[..k] + es[k + 1..]
    {
      RemoveCutsOne(es, id, k);
    }
    RemoveKeepsUnique(es, id);
  }

  /**
   * The existence check run before every update and delete: a missing id is
   * an InvalidArgument, an id with no entry is a NotFound.
   */
  function AssertExists<V>(id: Ident, es: seq<Entry<V>>): (r: Result<()>)
    ensures r.Ok? <==> id.Assigned? && Has(es, id.id)
    ensures id.Unassigned? ==> r == Err(InvalidArgument(""))
    ensures id.Assigned? && !Has(es, id.id) ==> r == Err(NotFound(""))
  {
    if id.Unassigned? then Err(InvalidArgument(""))
    else if FirstWhere(es, IdIs(id.id)).None? then Err(NotFound(""))
    else Ok(())
  }

  /** Entries plus the counter that hands out the next id. */
  datatype Table<V> = Table(entries: seq<Entry<V>>, nextId: int)

  /** Ids are unique and all below the counter, so the counter is always fresh. */
  predicate Valid<V>(t: Table<V>) {
    UniqueIds(t.entries) && forall i :: 0 <= i < |t.entries| ==> t.entries[i].id < t.nextId
  }

  /** A freshly created autoincrement table: no rows, first id 1. */
  function EmptyTable<V>(): (t: Table<V>)
    ensures Valid(t) && |t.entries| == 0 && t.nextId == 1
  {
    Table([], 1)
  }

  /**
   * Inserting takes the counter as the new id, appends the entry and bumps the
   * counter by one; the id was never used before and every later id is larger.
   */
  function Insert<V>(t: Table<V>, v: V): (r: (Table<V>, int))
    ensures r.1 == t.nextId && r.0.nextId == t.nextId + 1
    ensures r.0.entries == t.entries + [Entry(r.1, v)]
    ensures Valid(t) ==> Valid(r.0) && !Has(t.entries, r.1)
  {
    (Table(t.entries + [Entry(t.nextId, v)], t.nextId + 1), t.nextId)
  }

  /**
   * A stand-in for the driver's message when an INSERT is given a parameter
   * set holding an `id` the statement has no placeholder for; the model does
   * not reproduce the driver's wording.
   */
  const UNBOUND_ID_PARAM: string := "parameter id is not used by the INSERT statement"

  /**
   * `inTransaction`: `run` is what the block did to the table `before`; if it
   * raised, the transaction is rolled back to `before` and the same error is
   * re-raised, otherwise what it did is committed.
   */
  function InTransaction<V, X>(before: Table<V>, run: Step<Table<V>, X>): (r: Step<Table<V>, X>)
    ensures r.result == run.result
    ensures r.result.Err? ==> r.state == before
    ensures r.result.Ok? ==> r.state == run.state
  {
    if run.result.Err? then Step(before, run.result) else run
  }
}
