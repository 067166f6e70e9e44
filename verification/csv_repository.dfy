/**
 * The CSV-file backend. Opening reads every row into an insertion-ordered
 * map from id to task and seeds the id counter; every mutation rewrites the
 * whole file from the map. The file is modelled as its sequence of rows,
 * each row a sequence of field strings.
 */
module CsvRepository {
  import opened Outcomes
  import opened Identity
  import opened Store
  import opened SimpleTask
  import Decimal

  type Row = seq<string>

  /** The in-memory map with its id counter, and the rows currently in the file. */
  datatype Repo = Repo(table: Table<TaskData>, file: seq<Row>)

  /** How fputcsv writes a bool: true as "1", false as the empty field. */
  function FlagField(b: bool): string {
    if b then "1" else ""
  }

  /** PHP truthiness of a string field: only "" and "0" are false. */
  predicate Truthy(s: string) {
    s != "" && s != "0"
  }

  /** `toArray`: the row `[id, subject, completed-flag]` written for one task. */
  function ToArray(id: int, d: TaskData): (row: Row)
    ensures |row| == 3
    ensures Decimal.ParseInt(row[0]) == Some(id)
    ensures row[1] == d.subject
    ensures row[2] == "1" || row[2] == ""
    ensures Truthy(row[2]) <==> d.completed
  {
    Decimal.ParseIntToString(id);
    [Decimal.IntToString(id), d.subject, FlagField(d.completed)]
  }

  /**
   * `toTask`: the first three fields are id, subject and completed flag.
   * A row without a subject field cannot be turned into a task, and neither
   * can one whose id field is not an integer; a missing flag reads as false.
   */
  function ToTask(row: Row): (r: Result<SimpleTask>)
    ensures r.Ok? <==> |row| >= 2 && Decimal.ParseInt(row[0]).Some?
    ensures r.Ok? ==> r.value.id == Assigned(Decimal.ParseInt(row[0]).value)
    ensures r.Ok? ==> r.value.subject == row[1]
    ensures r.Ok? ==> (r.value.completed <==> |row| >= 3 && Truthy(row[2]))
  {
    if |row| < 2 then Err(MalformedRow("a task row needs at least an id and a subject"))
    else match Decimal.ParseInt(row[0])
      case None => Err(MalformedRow("task id is not an integer"))
      case Some(id) =>
        var t := NewTask(row[1]);
        var t := if |row| >= 3 && Truthy(row[2]) then Complete(t) else t;
        SetId(t, id)
  }

  /** Decoding a written row gives back the same id, subject and flag. */
  lemma RowRoundTrip(id: int, d: TaskData)
    ensures ToTask(ToArray(id, d)) == Ok(WithId(id, d))
  {
  }

  /** A row exactly as this backend writes it: three fields, canonical id, flag "1" or "". */
  predicate CanonicalRow(row: Row) {
    && |row| == 3
    && Decimal.ParseInt(row[0]).Some?
    && Decimal.IntToString(Decimal.ParseInt(row[0]).value) == row[0]
    && (row[2] == "1" || row[2] == "")
  }

  /** Encoding a decoded canonical row reproduces the row. */
  lemma CanonicalRowRoundTrip(row: Row)
    requires CanonicalRow(row)
    ensures ToTask(row).Ok?
    ensures ToArray(ToTask(row).value.id.id, DataOf(ToTask(row).value)) == row
  {
  }

  /**
   * `getTasksFromCsv`: decode the rows in file order, storing each task under
   * its id, so a later row with an id already seen overwrites the earlier
   * value in the earlier position. The first undecodable row aborts loading.
   */
  function LoadEntries(rows: seq<Row>): (r: Result<seq<Entry<TaskData>>>)
    ensures r.Ok? <==> forall i :: 0 <= i < |rows| ==> ToTask(rows[i]).Ok?
    ensures r.Ok? ==> UniqueIds(r.value) && |r.value| <= |rows|
  {
    if |rows| == 0 then Ok([])
    else
      var es :- LoadEntries(rows[..|rows| - 1]);
      var t :- ToTask(rows[|rows| - 1]);
      assert forall i :: 0 <= i < |rows| - 1 ==> rows[..|rows| - 1][i] == rows[i];
      Ok(Put(es, t.id.id, DataOf(t)))
  }

  /** The greatest id among the entries. */
  function MaxId(es: seq<Entry<TaskData>>): (m: int)
    requires |es| > 0
    ensures forall i :: 0 <= i < |es| ==> es[i].id <= m
    ensures exists i :: 0 <= i < |es| && es[i].id == m
  {
    if |es| == 1 then es[0].id
    else
      var m := MaxId(es[1..]);
      assert forall i :: 1 <= i < |es| ==> es[i] == es[1..][i - 1];
      if es[0].id >= m then es[0].id else m
  }

  /** `determineNextId`: 1 for an empty map, otherwise one more than the largest id. */
  function DetermineNextId(es: seq<Entry<TaskData>>): (n: int)
    ensures |es| == 0 ==> n == 1
    ensures |es| > 0 ==> exists i :: 0 <= i < |es| && es[i].id == n - 1
    ensures forall i :: 0 <= i < |es| ==> es[i].id < n
  {
    if |es| == 0 then 1 else MaxId(es) + 1
  }

  /** `saveTasksToCsv`: one row per stored task, in map order. */
  function SaveRows(es: seq<Entry<TaskData>>): (rows: seq<Row>)
    ensures |rows| == |es|
  {
    seq(|es|, i requires 0 <= i < |es| => ToArray(es[i].id, es[i].value))
  }

  /** Every written row decodes back to the task it was written for. */
  lemma SaveRowsDecode(es: seq<Entry<TaskData>>)
    ensures forall i :: 0 <= i < |es| ==> ToTask(SaveRows(es)[i]) == Ok(WithId(es[i].id, es[i].value))
  {
    forall i | 0 <= i < |es|
      ensures ToTask(SaveRows(es)[i]) == Ok(WithId(es[i].id, es[i].value))
    {
      RowRoundTrip(es[i].id, es[i].value);
    }
  }

  /** The file holds exactly the encoding of the map. */
  predicate Persisted(r: Repo) {
    r.file == SaveRows(r.table.entries)
  }

  /** The constructor, without the file handling: load the rows and seed the counter. */
  function Open(rows: seq<Row>): (r: Result<Repo>)
    ensures r.Ok? <==> LoadEntries(rows).Ok?
    ensures r.Ok? ==> Valid(r.value.table) && r.value.file == rows
    ensures r.Ok? ==> r.value.table.entries == LoadEntries(rows).value
    ensures r.Ok? && |r.value.table.entries| == 0 ==> r.value.table.nextId == 1
    ensures r.Ok? && |r.value.table.entries| > 0 ==> r.value.table.nextId == MaxId(r.value.table.entries) + 1
  {
    match LoadEntries(rows)
    case Err(e) => Err(e)
    case Ok(es) => Ok(Repo(Table(es, DetermineNextId(es)), rows))
  }

  /** `getAll`: every stored task with its id, in map order. */
  function GetAll(r: Repo): (ts: seq<SimpleTask>)
    ensures |ts| == |r.table.entries|
    ensures forall i :: 0 <= i < |ts| ==> ts[i].id == Assigned(r.table.entries[i].id)
    ensures forall i :: 0 <= i < |ts| ==> DataOf(ts[i]) == r.table.entries[i].value
  {
    seq(|r.table.entries|, i requires 0 <= i < |r.table.entries| => WithId(r.table.entries[i].id, r.table.entries[i].value))
  }

  /**
   * `create`: give the task the current counter as its id (refused if it
   * already has one, before anything is touched), append it to the map,
   * rewrite the file and advance the counter by one.
   */
  function Create(r: Repo, task: SimpleTask): (s: Step<Repo, SimpleTask>)
    requires Valid(r.table)
    ensures s.result.Ok? <==> task.id.Unassigned?
    ensures s.result.Err? ==> s.state == r && s.result.error == BadMethodCall(ALREADY_SET)
    ensures s.result.Ok? ==> s.result.value == WithId(r.table.nextId, DataOf(task))
    ensures s.result.Ok? ==> !Has(r.table.entries, r.table.nextId)
    ensures s.result.Ok? ==> s.state.table.entries == r.table.entries + [Entry(r.table.nextId, DataOf(task))]
    ensures s.result.Ok? ==> s.state.table.nextId == r.table.nextId + 1
    ensures Valid(s.state.table)
    ensures s.result.Ok? ==> Persisted(s.state)
  {
    match SetId(task, r.table.nextId)
    case Err(e) => Step(r, Err(e))
    case Ok(t) =>
      var entries := Put(r.table.entries, r.table.nextId, DataOf(t));
      var file := SaveRows(entries);
      Step(Repo(Table(entries, r.table.nextId + 1), file), Ok(t))
  }

  /**
   * `update`: after the existence check, store the task's data under its id,
   * in the position that id already has, and rewrite the file.
   */
  function Update(r: Repo, task: SimpleTask): (s: Step<Repo, ()>)
    requires Valid(r.table)
    ensures s.result.Ok? <==> task.id.Assigned? && Has(r.table.entries, task.id.id)
    ensures s.result.Err? ==> s.state == r
    ensures task.id.Unassigned? ==> s.result == Err(InvalidArgument(""))
    ensures task.id.Assigned? && !Has(r.table.entries, task.id.id) ==> s.result == Err(NotFound(""))
    ensures s.result.Ok? ==>
      && |s.state.table.entries| == |r.table.entries|
      && (forall i :: 0 <= i < |r.table.entries| ==>
            s.state.table.entries[i] ==
              (if r.table.entries[i].id == task.id.id then Entry(task.id.id, DataOf(task)) else r.table.entries[i]))
    ensures s.state.table.nextId == r.table.nextId && Valid(s.state.table)
    ensures s.result.Ok? ==> Persisted(s.state)
  {
    match AssertExists(task.id, r.table.entries)
    case Err(e) => Step(r, Err(e))
    case Ok(_) =>
      var entries := Put(r.table.entries, task.id.id, DataOf(task));
      Step(Repo(Table(entries, r.table.nextId), SaveRows(entries)), Ok(()))
  }

  /** `delete`: after the existence check, drop that id from the map and rewrite the file. */
  function Delete(r: Repo, task: SimpleTask): (s: Step<Repo, ()>)
    requires Valid(r.table)
    ensures s.result.Ok? <==> task.id.Assigned? && Has(r.table.entries, task.id.id)
    ensures s.result.Err? ==> s.state == r
    ensures task.id.Unassigned? ==> s.result == Err(InvalidArgument(""))
    ensures task.id.Assigned? && !Has(r.table.entries, task.id.id) ==> s.result == Err(NotFound(""))
    ensures s.result.Ok? ==>
      forall k :: 0 <= k < |r.table.entries| && r.table.entries[k].id == task.id.id ==>
        s.state.table.entries == r.table.entries[..k] + r.table.entries[k + 1..]
    ensures s.state.table.nextId == r.table.nextId && Valid(s.state.table)
    ensures s.result.Ok? ==> Persisted(s.state)
  {
    match AssertExists(task.id, r.table.entries)
    case Err(e) => Step(r, Err(e))
    case Ok(_) =>
      var entries := Remove(r.table.entries, task.id.id);
      RemoveCutsAny(r.table.entries, task.id.id);
      Step(Repo(Table(entries, r.table.nextId), SaveRows(entries)), Ok(()))
  }

  /** Loading a non-empty file is loading all rows but the last, then putting the last one. */
  lemma LoadEntriesStep(rows: seq<Row>)
    requires |rows| > 0 && LoadEntries(rows).Ok?
    ensures LoadEntries(rows[..|rows| - 1]).Ok? && ToTask(rows[|rows| - 1]).Ok?
    ensures
      var t := ToTask(rows[|rows| - 1]).value;
      LoadEntries(rows).value == Put(LoadEntries(rows[..|rows| - 1]).value, t.id.id, DataOf(t))
  {
  }

  /** Loading one more row puts its task into the map loaded so far. */
  lemma LoadEntriesSnoc(rows: seq<Row>, row: Row)
    requires LoadEntries(rows).Ok? && ToTask(row).Ok?
    ensures
      var t := ToTask(row).value;
      LoadEntries(rows + [row]) == Ok(Put(LoadEntries(rows).value, t.id.id, DataOf(t)))
  {
    assert (rows + [row])[..|rows|] == rows;
  }

  /** Writing one more entry writes one more row. */
  lemma SaveRowsSnoc(pre: seq<Entry<TaskData>>, e: Entry<TaskData>)
    ensures SaveRows(pre + [e]) == SaveRows(pre) + [ToArray(e.id, e.value)]
  {
  }

  /** In a unique-keyed map the last id is absent from the rest, and the rest is unique-keyed. */
  lemma UniqueLast(es: seq<Entry<TaskData>>)
    requires UniqueIds(es) && |es| > 0
    ensures UniqueIds(es[..|es| - 1]) && !Has(es[..|es| - 1], es[|es| - 1].id)
  {
    var pre := es[..|es| - 1];
    assert forall i :: 0 <= i < |pre| ==> pre[i] == es[i];
  }

  /** If a map survives writing and reading, so does the map with one more, fresh, entry. */
  lemma LoadSaveStep(pre: seq<Entry<TaskData>>, e: Entry<TaskData>)
    requires UniqueIds(pre) && !Has(pre, e.id)
    requires LoadEntries(SaveRows(pre)) == Ok(pre)
    ensures LoadEntries(SaveRows(pre + [e])) == Ok(pre + [e])
  {
    var row := ToArray(e.id, e.value);
    RowRoundTrip(e.id, e.value);
    SaveRowsSnoc(pre, e);
    LoadEntriesSnoc(SaveRows(pre), row);
    assert Put(pre, e.id, e.value) == pre + [e];
  }

  /** Writing a map and reading the file back gives the same map: what a reopen sees. */
  lemma {:induction false} LoadSaveRoundTrip(es: seq<Entry<TaskData>>)
    requires UniqueIds(es)
    ensures LoadEntries(SaveRows(es)) == Ok(es)
    decreases |es|
  {
    if |es| > 0 {
      var n := |es| - 1;
      UniqueLast(es);
      LoadSaveRoundTrip(es[..n]);
      LoadSaveStep(es[..n], es[n]);
      assert es[..n] + [es[n]] == es;
    }
  }

  /** After any mutation, reopening the file yields exactly the map the repository held. */
  lemma ReopenSeesSameTasks(r: Repo)
    requires Valid(r.table) && Persisted(r)
    ensures Open(r.file).Ok?
    ensures Open(r.file).value.table.entries == r.table.entries
    ensures |r.table.entries| > 0 ==> Open(r.file).value.table.nextId <= r.table.nextId
  {
    LoadSaveRoundTrip(r.table.entries);
  }

  /** The id written in the first field of a decodable row. */
  function RowId(row: Row): int
    requires ToTask(row).Ok?
  {
    ToTask(row).value.id.id
  }

  /**
   * On load, the value kept under an id comes from the last row carrying
   * that id: a later duplicate overwrites an earlier one.
   */
  lemma {:induction false} LoadLastRowWins(rows: seq<Row>, i: nat)
    requires LoadEntries(rows).Ok? && i < |rows|
    requires forall j :: i < j < |rows| ==> RowId(rows[j]) != RowId(rows[i])
    ensures Find(LoadEntries(rows).value, RowId(rows[i])) == Some(DataOf(ToTask(rows[i]).value))
    decreases |rows|
  {
    var n := |rows| - 1;
    var pre := rows[..n];
    LoadFindStep(rows, RowId(rows[i]));
    if i < n {
      assert forall j :: i <= j < |pre| ==> pre[j] == rows[j];
      LoadLastRowWins(pre, i);
    }
  }

  /** What the last row of a file contributes to a lookup after loading. */
  lemma LoadFindStep(rows: seq<Row>, other: int)
    requires |rows| > 0 && LoadEntries(rows).Ok?
    ensures LoadEntries(rows[..|rows| - 1]).Ok?
    ensures Find(LoadEntries(rows).value, RowId(rows[|rows| - 1])) == Some(DataOf(ToTask(rows[|rows| - 1]).value))
    ensures other != RowId(rows[|rows| - 1]) ==>
      Find(LoadEntries(rows).value, other) == Find(LoadEntries(rows[..|rows| - 1]).value, other)
  {
    LoadEntriesStep(rows);
    var t := ToTask(rows[|rows| - 1]).value;
    FindPut(LoadEntries(rows[..|rows| - 1]).value, t.id.id, DataOf(t), other);
  }

  /** The ids of the rows of a decodable file, in file order. */
  function RowIds(rows: seq<Row>): (ids: seq<int>)
    requires forall i :: 0 <= i < |rows| ==> ToTask(rows[i]).Ok?
    ensures |ids| == |rows| && forall i :: 0 <= i < |rows| ==> ids[i] == RowId(rows[i])
  {
    seq(|rows|, i requires 0 <= i < |rows| => RowId(rows[i]))
  }

  /** Each distinct id once, in the order of its first occurrence. */
  function FirstOccurrences(ids: seq<int>): (r: seq<int>)
    ensures forall x :: x in r <==> x in ids
    ensures forall i, j :: 0 <= i < j < |r| ==> r[i] != r[j]
    decreases |ids|
  {
    if |ids| == 0 then []
    else
      var d := FirstOccurrences(ids[..|ids| - 1]);
      var x := ids[|ids| - 1];
      assert forall y :: y in ids <==> y in ids[..|ids| - 1] || y == x by {
        assert ids == ids[..|ids| - 1] + [x];
      }
      if x in d then d else d + [x]
  }

  /** One more row extends the first-occurrence order of the rows before it. */
  lemma LoadIdsStep(rows: seq<Row>)
    requires |rows| > 0 && LoadEntries(rows).Ok?
    requires LoadEntries(rows[..|rows| - 1]).Ok?
    requires Ids(LoadEntries(rows[..|rows| - 1]).value) == FirstOccurrences(RowIds(rows[..|rows| - 1]))
    ensures Ids(LoadEntries(rows).value) == FirstOccurrences(RowIds(rows))
  {
    var n := |rows| - 1;
    var t := ToTask(rows[n]).value;
    LoadEntriesStep(rows);
    RowIdsPrefix(rows);
    PutKeepsFirstOccurrences(LoadEntries(rows[..n]).value, RowIds(rows), DataOf(t));
  }

  /** The row ids of a file are those of all rows but the last, then the last row's. */
  lemma RowIdsPrefix(rows: seq<Row>)
    requires |rows| > 0 && forall i :: 0 <= i < |rows| ==> ToTask(rows[i]).Ok?
    ensures RowIds(rows)[..|rows| - 1] == RowIds(rows[..|rows| - 1])
    ensures RowIds(rows)[|rows| - 1] == RowId(rows[|rows| - 1])
  {
  }

  /** Putting the next id of a sequence keeps a map's keys in first-occurrence order. */
  lemma PutKeepsFirstOccurrences(pre: seq<Entry<TaskData>>, ids: seq<int>, v: TaskData)
    requires |ids| > 0 && UniqueIds(pre)
    requires Ids(pre) == FirstOccurrences(ids[..|ids| - 1])
    ensures Ids(Put(pre, ids[|ids| - 1], v)) == FirstOccurrences(ids)
  {
    FirstOccurrencesSnoc(ids);
    IdsPut(pre, ids[|ids| - 1], v);
  }

  /** The first-occurrence order of a sequence extends that of all but its last element. */
  lemma FirstOccurrencesSnoc(ids: seq<int>)
    requires |ids| > 0
    ensures
      var d := FirstOccurrences(ids[..|ids| - 1]);
      FirstOccurrences(ids) == if ids[|ids| - 1] in d then d else d + [ids[|ids| - 1]]
  {
  }

  /**
   * On load, each id of the file sits at the position where it first occurs
   * in the file: a later duplicate replaces the value but does not move the
   * key. This is the order `getAll` returns.
   */
  lemma {:induction false} LoadOrderIsFirstOccurrence(rows: seq<Row>)
    requires LoadEntries(rows).Ok?
    ensures forall i :: 0 <= i < |rows| ==> ToTask(rows[i]).Ok?
    ensures Ids(LoadEntries(rows).value) == FirstOccurrences(RowIds(rows))
    decreases |rows|
  {
    if |rows| > 0 {
      LoadEntriesStep(rows);
      LoadOrderIsFirstOccurrence(rows[..|rows| - 1]);
      LoadIdsStep(rows);
    }
  }

  /** On load, the map holds exactly the ids that occur in the file. */
  lemma LoadedIdsAreRowIds(rows: seq<Row>)
    requires LoadEntries(rows).Ok?
    ensures forall i :: 0 <= i < |rows| ==> ToTask(rows[i]).Ok?
    ensures forall k :: 0 <= k < |LoadEntries(rows).value| ==> LoadEntries(rows).value[k].id in RowIds(rows)
    ensures forall i :: 0 <= i < |rows| ==> Has(LoadEntries(rows).value, RowId(rows[i]))
  {
    var es := LoadEntries(rows).value;
    LoadOrderIsFirstOccurrence(rows);
    forall k | 0 <= k < |es|
      ensures es[k].id in RowIds(rows)
    {
      assert Ids(es)[k] in RowIds(rows);
    }
    forall i | 0 <= i < |rows|
      ensures Has(es, RowId(rows[i]))
    {
      assert RowIds(rows)[i] in Ids(es);
    }
  }

  /** Repository operations a caller can issue. */
  datatype Op = CreateOp(task: SimpleTask) | UpdateOp(task: SimpleTask) | DeleteOp(task: SimpleTask)

  /** One operation; a create reports the id it issued. A failed operation changes nothing. */
  function Apply(r: Repo, op: Op): (s: Step<Repo, Option<int>>)
    requires Valid(r.table)
    ensures Valid(s.state.table)
    ensures s.result.Ok? && s.result.value.Some? ==>
      s.result.value.value == r.table.nextId && s.state.table.nextId == r.table.nextId + 1
    ensures !(s.result.Ok? && s.result.value.Some?) ==> s.state.table.nextId == r.table.nextId
  {
    match op
    case CreateOp(t) =>
      var c := Create(r, t);
      Step(c.state, if c.result.Ok? then Ok(Some(c.result.value.id.id)) else Err(c.result.error))
    case UpdateOp(t) =>
      var u := Update(r, t);
      Step(u.state, if u.result.Ok? then Ok(None) else Err(u.result.error))
    case DeleteOp(t) =>
      var d := Delete(r, t);
      Step(d.state, if d.result.Ok? then Ok(None) else Err(d.result.error))
  }

  /** Run operations in order on one instance, collecting the ids issued by successful creates. */
  function Run(r: Repo, ops: seq<Op>): (out: (Repo, seq<int>))
    requires Valid(r.table)
    ensures Valid(out.0.table)
    decreases |ops|
  {
    if |ops| == 0 then (r, [])
    else
      var s := Apply(r, ops[0]);
      var rest := Run(s.state, ops[1..]);
      var issued := if s.result.Ok? && s.result.value.Some? then [s.result.value.value] else [];
      (rest.0, issued + rest.1)
  }

  predicate StrictlyIncreasing(ids: seq<int>) {
    forall i, j :: 0 <= i < j < |ids| ==> ids[i] < ids[j]
  }

  /**
   * Within one instance, ids are issued in strictly increasing order, all at
   * or above the counter the instance started with and below the one it ends
   * with, so no id that was ever stored (even if deleted since) is reissued.
   */
  lemma {:induction false} IssuedIdsIncrease(r: Repo, ops: seq<Op>)
    requires Valid(r.table)
    ensures StrictlyIncreasing(Run(r, ops).1)
    ensures forall k :: 0 <= k < |Run(r, ops).1| ==> r.table.nextId <= Run(r, ops).1[k] < Run(r, ops).0.table.nextId
    ensures r.table.nextId <= Run(r, ops).0.table.nextId
    decreases |ops|
  {
    if |ops| > 0 {
      var s := Apply(r, ops[0]);
      IssuedIdsIncrease(s.state, ops[1..]);
    }
  }

  /** Two successful creates append two entries with consecutive ids. */
  lemma TwoCreates(r: Repo, a: SimpleTask, b: SimpleTask)
    requires Valid(r.table) && a.id.Unassigned? && b.id.Unassigned?
    ensures
      var c1 := Create(r, a);
      var c2 := Create(c1.state, b);
      && c1.result.Ok? && c1.result.value.id == Assigned(r.table.nextId)
      && c2.result.Ok? && c2.result.value == WithId(r.table.nextId + 1, DataOf(b))
      && c2.state.table.entries
         == r.table.entries + [Entry(r.table.nextId, DataOf(a)), Entry(r.table.nextId + 1, DataOf(b))]
  {
  }

  /**
   * Ids are only unique per instance: create two tasks, delete the second,
   * and a reopened repository seeds its counter with the deleted id again.
   */
  lemma ReopenReusesDeletedMaxId(r: Repo, a: SimpleTask, b: SimpleTask)
    requires Valid(r.table) && a.id.Unassigned? && b.id.Unassigned?
    ensures
      var c1 := Create(r, a);
      var c2 := Create(c1.state, b);
      var d := Delete(c2.state, c2.result.value);
      && c1.result.Ok? && c1.result.value.id == Assigned(r.table.nextId)
      && c2.result.Ok? && c2.result.value.id == Assigned(r.table.nextId + 1)
      && d.result.Ok?
      && Open(d.state.file).Ok?
      && Open(d.state.file).value.table.nextId == r.table.nextId + 1
  {
    var n := r.table.nextId;
    TwoCreates(r, a, b);
    var c2 := Create(Create(r, a).state, b);
    var k := |r.table.entries| + 1;
    var kept := r.table.entries + [Entry(n, DataOf(a))];
    assert c2.state.table.entries[k].id == n + 1;
    assert c2.state.table.entries[..k] == kept;
    var d := Delete(c2.state, c2.result.value);
    assert d.state.table.entries == kept;
    ReopenSeesSameTasks(d.state);
    assert kept[|kept| - 1].id == n;
  }
}
