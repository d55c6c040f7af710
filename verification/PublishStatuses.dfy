/**
  Which template a resource is published with on a cluster. The table is meant to be a map
  from (type, resource, cluster) to a template, kept by deleting and inserting rows.
 */
module PublishStatuses {
  import opened Sequences
  import opened Transactions
  import opened Wrappers

  datatype Key = Key(kind: int, resource: int, cluster: string)
  datatype Row = Row(id: int, key: Key, template: int)
  datatype Table = Table(rows: seq<Row>, nextId: int)

  // ---------------------------------------------------------------------------
  // Statements

  function Insert(t: Table, key: Key, template: int): Table {
    Table(t.rows + [Row(t.nextId, key, template)], t.nextId + 1)
  }

  function DeleteId(t: Table, id: int): Table {
    t.(rows := Without(t.rows, id))
  }

  // ---------------------------------------------------------------------------
  // The map behind the table

  /** No two rows share an id or a key. */
  ghost predicate Unique(rows: seq<Row>) {
    forall i, j | 0 <= i < j < |rows| :: rows[i].id != rows[j].id && rows[i].key != rows[j].key
  }

  ghost predicate Consistent(t: Table) {
    Unique(t.rows) && forall i | 0 <= i < |t.rows| :: t.rows[i].id < t.nextId
  }

  function Entries(rows: seq<Row>): map<Key, int> {
    if rows == [] then map[] else Entries(rows[1..])[rows[0].key := rows[0].template]
  }

  function Published(t: Table): map<Key, int> {
    Entries(t.rows)
  }

  ghost predicate HasKey(rows: seq<Row>, key: Key) {
    exists i | 0 <= i < |rows| :: rows[i].key == key
  }

  /** Keys of the map are keys of rows. */
  lemma {:induction false} KeyInEntries(rows: seq<Row>, key: Key)
    ensures key in Entries(rows) <==> HasKey(rows, key)
  {
    if rows != [] {
      KeyInEntries(rows[1..], key);
      if HasKey(rows, key) {
        var i :| 0 <= i < |rows| && rows[i].key == key;
        if i > 0 { assert rows[1..][i - 1].key == key; }
      }
      if HasKey(rows[1..], key) {
        var i :| 0 <= i < |rows[1..]| && rows[1..][i].key == key;
        assert rows[i + 1].key == key;
      }
    }
  }

  lemma {:induction false} EntryOfRow(rows: seq<Row>, i: nat)
    requires Unique(rows) && i < |rows|
    ensures rows[i].key in Entries(rows) && Entries(rows)[rows[i].key] == rows[i].template
  {
    if i > 0 {
      EntryOfRow(rows[1..], i - 1);
      assert rows[0].key != rows[i].key;
    }
  }

  lemma {:induction false} EntriesAppend(rows: seq<Row>, row: Row)
    requires !HasKey(rows, row.key)
    ensures Entries(rows + [row]) == Entries(rows)[row.key := row.template]
  {
    if rows == [] {
      assert [] + [row] == [row] && [row][1..] == [];
    } else {
      assert (rows + [row])[1..] == rows[1..] + [row];
      assert rows[0].key != row.key;
      assert !HasKey(rows[1..], row.key) by {
        forall i | 0 <= i < |rows[1..]| ensures rows[1..][i].key != row.key { assert rows[i + 1].key != row.key; }
      }
      EntriesAppend(rows[1..], row);
    }
  }

  function Without(rows: seq<Row>, id: int): (r: seq<Row>)
    ensures forall x :: x in r <==> x in rows && x.id != id
  {
    Select(rows, (x: Row) => x.id != id)
  }

  /** Deleting the row at `k` by its id takes its key out of the map and leaves rows unique. */
  lemma {:induction false} WithoutRow(rows: seq<Row>, k: nat)
    requires Unique(rows) && k < |rows|
    ensures Unique(Without(rows, rows[k].id))
    ensures Entries(Without(rows, rows[k].id)) == Entries(rows) - {rows[k].key}
  {
    var tail := rows[1..];
    assert forall i | 0 <= i < |tail| :: tail[i] == rows[i + 1];
    if k == 0 {
      NothingToRemove(tail, rows[0].id);
      KeyInEntries(tail, rows[0].key);
      assert Without(rows, rows[0].id) == tail;
    } else {
      WithoutRow(tail, k - 1);
      KeepFirst(rows, Without(tail, rows[k].id), rows[k].id);
      UpdateAndRemove(Entries(tail), rows[0].key, rows[0].template, rows[k].key);
    }
  }

  lemma UpdateAndRemove(m: map<Key, int>, a: Key, v: int, b: Key)
    requires a != b
    ensures (m - {b})[a := v] == m[a := v] - {b}
  {}

  lemma KeepFirst(rows: seq<Row>, rest: seq<Row>, id: int)
    requires Unique(rows) && rows != [] && rows[0].id != id
    requires rest == Without(rows[1..], id) && Unique(rest)
    ensures Without(rows, id) == [rows[0]] + rest && Unique([rows[0]] + rest)
    ensures Entries([rows[0]] + rest) == Entries(rest)[rows[0].key := rows[0].template]
  {
    assert ([rows[0]] + rest)[1..] == rest;
    forall j | 0 <= j < |rest| ensures rest[j].id != rows[0].id && rest[j].key != rows[0].key {
      assert rest[j] in rows[1..];
      var i :| 0 <= i < |rows[1..]| && rows[1..][i] == rest[j];
      assert rows[i + 1] == rest[j];
    }
  }

  lemma {:induction false} NothingToRemove(rows: seq<Row>, id: int)
    requires forall i | 0 <= i < |rows| :: rows[i].id != id
    ensures Without(rows, id) == rows
  {
    if rows != [] { NothingToRemove(rows[1..], id); }
  }

  lemma InsertIsUpdate(t: Table, key: Key, template: int)
    requires Consistent(t) && key !in Published(t)
    ensures Consistent(Insert(t, key, template))
    ensures Published(Insert(t, key, template)) == Published(t)[key := template]
  {
    KeyInEntries(t.rows, key);
    EntriesAppend(t.rows, Row(t.nextId, key, template));
  }

  lemma DeleteIsRemoval(t: Table, row: Row)
    requires Consistent(t) && row in t.rows
    ensures Consistent(DeleteId(t, row.id))
    ensures Published(DeleteId(t, row.id)) == Published(t) - {row.key}
  {
    var k :| 0 <= k < |t.rows| && t.rows[k] == row;
    WithoutRow(t.rows, k);
    var rest := Without(t.rows, row.id);
    forall j | 0 <= j < |rest| ensures rest[j].id < t.nextId { assert rest[j] in t.rows; }
  }

  /** A row of the table says what the map holds for its key. */
  lemma RowSays(t: Table, row: Row)
    requires Consistent(t) && row in t.rows
    ensures row.key in Published(t) && Published(t)[row.key] == row.template
  {
    var k :| 0 <= k < |t.rows| && t.rows[k] == row;
    EntryOfRow(t.rows, k);
  }

  lemma OneRowPerId(rows: seq<Row>, a: Row, b: Row)
    requires Unique(rows) && a in rows && b in rows
    ensures a.id == b.id || a.key == b.key ==> a == b
  {
    var i :| 0 <= i < |rows| && rows[i] == a;
    var j :| 0 <= j < |rows| && rows[j] == b;
  }

  // ---------------------------------------------------------------------------
  // Publishing

  /** The table that publishing leads to when nothing fails; the same one when the template
      is published already. */
  ghost predicate Updated(before: Table, after: Table, key: Key, template: int) {
    && Consistent(after)
    && Published(after) == Published(before)[key := template]
    && (key in Published(before) && Published(before)[key] == template ==> after == before)
  }

  ghost predicate OthersOf(kept: seq<Row>, rows: seq<Row>, key: Key) {
    KeptInOrder(kept, rows, (r: Row) => r.key != key)
  }

  /** Its rows: unless nothing changed, those of all other keys in their order and behind them a new
      one for the key. */
  ghost predicate RowUpdated(before: Table, after: Table, key: Key, template: int) {
    after == before ||
    exists kept :: OthersOf(kept, before.rows, key) &&
      after == Table(kept + [Row(before.nextId, key, template)], before.nextId + 1)
  }

  /** The first row for the key among those read, as the loop meets them. */
  method FindKey(rows: seq<Row>, cluster: string) returns (r: Option<Row>)
    ensures r.None? ==> forall x | x in rows :: x.key.cluster != cluster
    ensures r.Some? ==> r.value in rows && r.value.key.cluster == cluster
  {
    for i := 0 to |rows|
      invariant forall k | 0 <= k < i :: rows[k].key.cluster != cluster
    {
      if rows[i].key.cluster == cluster { return Some(rows[i]); }
    }
    return None;
  }

  lemma InsertUpdates(t: Table, key: Key, template: int)
    requires Consistent(t) && key !in Published(t)
    ensures Updated(t, Insert(t, key, template), key, template)
    ensures RowUpdated(t, Insert(t, key, template), key, template)
  {
    InsertIsUpdate(t, key, template);
    KeyInEntries(t.rows, key);
    NothingToRemove(t.rows, t.nextId);
    WithoutKeeps(t.rows, t.nextId, key);
  }

  /** Taking out the row of a key by its id, or none for a key without row. */
  lemma WithoutKeeps(rows: seq<Row>, id: int, key: Key)
    requires forall r | r in rows :: r.id == id <==> r.key == key
    ensures OthersOf(Without(rows, id), rows, key)
  {
    var p := (r: Row) => r.id != id;
    SelectKeeps(rows, p);
    var at: seq<nat> :| Picks(at, Select(rows, p), rows, p);
    assert Picks(at, Without(rows, id), rows, (r: Row) => r.key != key);
  }

  lemma ReplacementUpdates(t: Table, row: Row, template: int)
    requires Consistent(t) && row in t.rows && row.template != template
    ensures Updated(t, Insert(DeleteId(t, row.id), row.key, template), row.key, template)
    ensures RowUpdated(t, Insert(DeleteId(t, row.id), row.key, template), row.key, template)
  {
    RowSays(t, row);
    DeleteIsRemoval(t, row);
    InsertIsUpdate(DeleteId(t, row.id), row.key, template);
    forall r | r in t.rows ensures r.id == row.id <==> r.key == row.key { OneRowPerId(t.rows, r, row); }
    WithoutKeeps(t.rows, row.id, row.key);
    assert (Published(t) - {row.key})[row.key := template] == Published(t)[row.key := template];
  }

  lemma RepublishingUpdates(t: Table, row: Row)
    requires Consistent(t) && row in t.rows
    ensures Updated(t, t, row.key, row.template)
  {
    RowSays(t, row);
    assert Published(t) == Published(t)[row.key := row.template];
  }

  /** Reads the rows of the resource and looks for the cluster among them. */
  method ReadState(o: Session<Table>, key: Key) returns (ok: bool, state: Option<Row>)
    requires Consistent(o.work)
    modifies o`clock
    ensures ok == !o.faults(old(o.clock)) && o.clock == old(o.clock) + 1
    ensures ok && state.None? ==> key !in Published(o.work)
    ensures ok && state.Some? ==>
      && state.value in o.work.rows && state.value.key == key
      && key in Published(o.work) && Published(o.work)[key] == state.value.template
  {
    state := None;
    ok := o.Read();
    if !ok { return; }
    var status := Select(o.work.rows, (r: Row) => r.key.kind == key.kind && r.key.resource == key.resource);
    state := FindKey(status, key.cluster);
    if state.None? { NoRowNoKey(o.work, key, status); } else { RowSays(o.work, state.value); }
  }

  /** Inserts the row for a key without one. The commit is issued even when that fails. */
  method PublishNew(o: Session<Table>, key: Key, template: int) returns (err: Option<Error>)
    requires o.work == o.committed
    modifies o
    ensures o.clock == old(o.clock) + 2
    ensures err == if o.faults(old(o.clock)) then Some(StatementFailed) else None
    ensures o.committed == if NoFaults(o.faults, old(o.clock), o.clock) then Insert(old(o.committed), key, template)
                           else old(o.committed)
  {
    var ok := o.Exec(Insert(o.work, key, template));
    var committed := o.Commit();
    return if ok then None else Some(StatementFailed);
  }

  /** Deletes the row of the key and inserts the new one. */
  method Replace(o: Session<Table>, row: Row, template: int) returns (err: Option<Error>)
    requires o.work == o.committed
    modifies o
    ensures var c := old(o.clock);
      && err == (if NoFaults(o.faults, c, c + 2) then None else Some(StatementFailed))
      && o.committed == (if NoFaults(o.faults, c, c + 3)
                         then Insert(DeleteId(old(o.committed), row.id), row.key, template)
                         else old(o.committed))
      && (if err.None? then o.clock == c + 3 else o.clock > c && o.faults(o.clock - 1))
  {
    var ok := o.Exec(DeleteId(o.work, row.id));
    if !ok { return Some(StatementFailed); }
    ok := o.Exec(Insert(o.work, row.key, template));
    if !ok {
      o.Rollback();
      return Some(StatementFailed);
    }
    var committed := o.Commit();
    return None;
  }

  /** How many statements write: none for a template that is published already. */
  ghost function Writes(t: Table, key: Key, template: int): nat {
    if key !in Published(t) then 1 else if Published(t)[key] == template then 0 else 2
  }

  /** Publishes over the row that was read, if any. */
  method PublishOver(o: Session<Table>, key: Key, template: int, state: Option<Row>) returns (err: Option<Error>)
    requires Consistent(o.committed) && o.work == o.committed
    requires state.None? ==> key !in Published(o.work)
    requires state.Some? ==>
      && state.value in o.work.rows && state.value.key == key
      && key in Published(o.work) && Published(o.work)[key] == state.value.template
    modifies o
    ensures var c := old(o.clock); var w := Writes(old(o.committed), key, template);
      && err == (if NoFaults(o.faults, c, c + w) then None else Some(StatementFailed))
      && (if err.None? && (w == 0 || !o.faults(c + w))
          then Updated(old(o.committed), o.committed, key, template)
               && RowUpdated(old(o.committed), o.committed, key, template)
          else o.committed == old(o.committed))
      && (if err.None? then o.clock == (if w == 0 then c else c + 1 + w) else !NoFaults(o.faults, c, o.clock))
  {
    if state.None? {
      InsertUpdates(o.work, key, template);
      err := PublishNew(o, key, template);
    } else if state.value.template == template {
      RepublishingUpdates(o.work, state.value);
      err := None;
    } else {
      ReplacementUpdates(o.work, state.value, template);
      err := Replace(o, state.value, template);
    }
  }

  /** The table is fully updated exactly when no statement up to the commit fails, and else as
      before. A failing commit is no error. */
  method Publish(o: Session<Table>, key: Key, template: int) returns (err: Option<Error>)
    requires Consistent(o.committed)
    modifies o
    ensures var c := old(o.clock); var w := Writes(old(o.committed), key, template);
      && err == (if o.faults(c) then Some(BeginFailed)
                 else if !NoFaults(o.faults, c + 1, c + 2 + w) then Some(StatementFailed)
                 else None)
      && (if err.None? && (w == 0 || !o.faults(c + 2 + w))
          then Updated(old(o.committed), o.committed, key, template)
               && RowUpdated(old(o.committed), o.committed, key, template)
          else o.committed == old(o.committed))
      && (if err.None? then o.clock == (if w == 0 then c + 2 else c + 3 + w)
          else o.clock > c && !NoFaults(o.faults, c, o.clock))
  {
    var ok := o.Begin();
    if !ok { return Some(BeginFailed); }
    var state;
    ok, state := ReadState(o, key);
    if !ok { return Some(StatementFailed); }
    err := PublishOver(o, key, template, state);
  }

  lemma NoRowNoKey(t: Table, key: Key, status: seq<Row>)
    requires Consistent(t)
    requires status == Select(t.rows, (r: Row) => r.key.kind == key.kind && r.key.resource == key.resource)
    requires forall x | x in status :: x.key.cluster != key.cluster
    ensures key !in Published(t)
  {
    KeyInEntries(t.rows, key);
    forall i | 0 <= i < |t.rows| ensures t.rows[i].key != key {
      var row := t.rows[i];
      assert row in t.rows && (row in status <==> row.key.kind == key.kind && row.key.resource == key.resource);
    }
  }

  predicate HasId(t: Table, id: int) {
    exists r | r in t.rows :: r.id == id
  }

  /** The row with the id is gone, and with it its key from the map. */
  ghost predicate Deleted(before: Table, after: Table, id: int) {
    && Consistent(after)
    && exists r | r in before.rows ::
         && r.id == id && r.key in Published(before)
         && Published(after) == Published(before) - {r.key}
  }

  /** Two statements outside any transaction: the row must be there, then it is deleted. */
  method DeleteById(o: Session<Table>, id: int) returns (err: Option<Error>)
    requires Consistent(o.committed)
    modifies o
    ensures o.clock > old(o.clock)
    ensures err ==
      if o.faults(old(o.clock)) then Some(StatementFailed)
      else if !(exists r | r in old(o.committed.rows) :: r.id == id) then Some(NoRow)
      else if o.faults(old(o.clock) + 1) then Some(StatementFailed)
      else None
    ensures if err.None? then Deleted(old(o.committed), o.committed, id) else o.committed == old(o.committed)
    ensures err.None? ==> KeptInOrder(o.committed.rows, old(o.committed.rows), (r: Row) => r.id != id)
    ensures err.None? ==> forall r :: r in o.committed.rows <==> r in old(o.committed.rows) && r.id != id
    ensures NoFaults(o.faults, old(o.clock), o.clock) ==> err.None? || !HasId(old(o.committed), id)
  {
    var ok := o.Read();
    if !ok { return Some(StatementFailed); }
    var found := Select(o.committed.rows, (r: Row) => r.id == id);
    if found == [] { return Some(NoRow); }
    assert found[0] in found;
    RowSays(o.committed, found[0]);
    DeleteIsRemoval(o.committed, found[0]);
    SelectKeeps(o.committed.rows, (r: Row) => r.id != id);
    ok := o.ExecNow(DeleteId(o.committed, id));
    return if ok then None else Some(StatementFailed);
  }

  // ---------------------------------------------------------------------------
  // Reading

  datatype Answer = One(row: Row) | NoRows | MultiRows

  function GetByCluster(t: Table, key: Key): Answer {
    var rows := Select(t.rows, (r: Row) => r.key == key);
    if |rows| == 0 then NoRows else if |rows| == 1 then One(rows[0]) else MultiRows
  }

  /** Reading by key is looking up in the map; two rows are never met. */
  lemma GetByClusterIsLookup(t: Table, key: Key)
    requires Consistent(t)
    ensures key in Published(t) <==> GetByCluster(t, key).One?
    ensures key !in Published(t) <==> GetByCluster(t, key).NoRows?
    ensures key in Published(t) ==>
      var r := GetByCluster(t, key).row; r in t.rows && r.key == key && r.template == Published(t)[key]
  {
    KeyInEntries(t.rows, key);
    OneRowPerKey(t.rows, key);
    var rows := Select(t.rows, (r: Row) => r.key == key);
    if |rows| == 1 {
      assert rows[0] in rows;
      RowSays(t, rows[0]);
    }
  }

  lemma {:induction false} OneRowPerKey(rows: seq<Row>, key: Key)
    requires Unique(rows)
    ensures |Select(rows, (r: Row) => r.key == key)| == if HasKey(rows, key) then 1 else 0
  {
    var p := (r: Row) => r.key == key;
    if rows != [] {
      var tail := rows[1..];
      OneRowPerKey(tail, key);
      KeyInEntries(rows, key);
      KeyInEntries(tail, key);
      if p(rows[0]) {
        assert !HasKey(tail, key) by {
          forall i | 0 <= i < |tail| ensures tail[i].key != key { assert tail[i] == rows[i + 1]; }
        }
        assert HasKey(rows, key);
      }
    }
  }

  // ---------------------------------------------------------------------------
  // Whole runs

  datatype Call = PublishCall(key: Key, template: int) | DeleteCall(id: int)

  /** What a call does when none of its statements fails. */
  ghost predicate Step(t: Table, call: Call, next: Table) {
    match call
    case PublishCall(key, template) => Updated(t, next, key, template)
    case DeleteCall(id) => if HasId(t, id) then Deleted(t, next, id) else next == t
  }

  method Perform(o: Session<Table>, call: Call)
    requires Consistent(o.committed)
    modifies o
    ensures Consistent(o.committed) && o.clock > old(o.clock)
    ensures o.committed == old(o.committed) || Step(old(o.committed), call, o.committed)
    ensures NoFaults(o.faults, old(o.clock), o.clock) ==> Step(old(o.committed), call, o.committed)
  {
    match call
    case PublishCall(key, template) =>
      var err := Publish(o, key, template);
    case DeleteCall(id) =>
      var err := DeleteById(o, id);
  }

  const EMPTY: Table := Table([], 1)

  /** The tables between the calls of a run: each call takes its full effect or none. */
  ghost predicate History(tables: seq<Table>, calls: seq<Call>) {
    && |tables| == |calls| + 1 && tables[0] == EMPTY
    && (forall i | 0 <= i < |tables| :: Consistent(tables[i]))
    && forall i | 0 <= i < |calls| :: tables[i + 1] == tables[i] || Step(tables[i], calls[i], tables[i + 1])
  }

  ghost predicate Replays(tables: seq<Table>, calls: seq<Call>)
    requires |tables| == |calls| + 1
  {
    forall i | 0 <= i < |calls| :: Step(tables[i], calls[i], tables[i + 1])
  }

  ghost predicate HasRow(t: Table, id: int, key: Key) {
    exists r | r in t.rows :: r.id == id && r.key == key
  }

  /** The template of the last of the first `n` calls that publishes the key, unless a later one
      deletes its row. */
  ghost function LastPublished(tables: seq<Table>, calls: seq<Call>, n: nat, key: Key): Option<int>
    requires n <= |calls| <= |tables|
  {
    if n == 0 then None
    else
      match calls[n - 1]
      case PublishCall(k, template) => if k == key then Some(template) else LastPublished(tables, calls, n - 1, key)
      case DeleteCall(id) => if HasRow(tables[n - 1], id, key) then None else LastPublished(tables, calls, n - 1, key)
  }

  function MapGet(m: map<Key, int>, key: Key): Option<int> {
    if key in m then Some(m[key]) else None
  }

  /** In a run without failures the map holds the last published template of each key. */
  lemma {:induction false} ReplayKeepsLast(tables: seq<Table>, calls: seq<Call>, n: nat, key: Key)
    requires History(tables, calls) && Replays(tables, calls) && n <= |calls|
    ensures MapGet(Published(tables[n]), key) == LastPublished(tables, calls, n, key)
  {
    if n > 0 {
      ReplayKeepsLast(tables, calls, n - 1, key);
      StepForKey(tables[n - 1], calls[n - 1], tables[n], key);
    }
  }

  lemma StepForKey(t: Table, call: Call, next: Table, key: Key)
    requires Consistent(t) && Step(t, call, next)
    ensures MapGet(Published(next), key) ==
      match call
      case PublishCall(k, template) => if k == key then Some(template) else MapGet(Published(t), key)
      case DeleteCall(id) => if HasRow(t, id, key) then None else MapGet(Published(t), key)
  {
    if call.DeleteCall? { DeletedKey(t, next, call.id, key); }
  }

  lemma DeletedKey(t: Table, next: Table, id: int, key: Key)
    requires Consistent(t) && Step(t, DeleteCall(id), next)
    ensures MapGet(Published(next), key) == if HasRow(t, id, key) then None else MapGet(Published(t), key)
  {
    if HasId(t, id) {
      var r :| r in t.rows && r.id == id && r.key in Published(t) && Published(next) == Published(t) - {r.key};
      forall x | x in t.rows && x.id == id ensures x == r { OneRowPerId(t.rows, x, r); }
    }
  }

  /** Every run from the empty table keeps one row per key, whatever fails, each call taking its
      full effect or none; when nothing fails the map holds what was published last. */
  method Serve(calls: seq<Call>, faults: nat -> bool)
    returns (t: Table, ghost tables: seq<Table>, ghost statements: nat)
    ensures Consistent(t) && History(tables, calls) && tables[|calls|] == t
    ensures NoFaults(faults, 0, statements) ==>
      forall key :: MapGet(Published(t), key) == LastPublished(tables, calls, |calls|, key)
  {
    var o := new Session<Table>(EMPTY, faults);
    tables := [EMPTY];
    for i := 0 to |calls|
      invariant History(tables, calls[..i]) && tables[i] == o.committed && o.faults == faults
      invariant NoFaults(faults, 0, o.clock) ==> Replays(tables, calls[..i])
    {
      Perform(o, calls[i]);
      assert calls[..i + 1] == calls[..i] + [calls[i]];
      tables := tables + [o.committed];
    }
    assert calls[..|calls|] == calls;
    t, statements := o.committed, o.clock;
    if NoFaults(faults, 0, statements) {
      forall key ensures MapGet(Published(t), key) == LastPublished(tables, calls, |calls|, key) {
        ReplayKeepsLast(tables, calls, |calls|, key);
      }
    }
  }
}
