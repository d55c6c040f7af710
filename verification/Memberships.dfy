/**
  The group memberships of a user in an app or in a namespace. The two ORM models run the
  same statements on tables that differ only in the name of one column, called scope here.
 */
module Memberships {
  import opened Sequences
  import opened Transactions
  import opened Wrappers

  datatype Row = Row(id: int, scope: int, user: int, group: int)
  datatype Db = Db(rows: seq<Row>, nextId: int)

  /** The argument of the model functions: the row itself and the list of groups. */
  datatype Member = Member(row: Row, groups: seq<int>)

  // ---------------------------------------------------------------------------
  // Statements

  predicate Matches(r: Row, scope: int, user: int, group: int) {
    r.scope == scope && r.user == user && r.group == group
  }

  predicate OfPair(r: Row, scope: int, user: int) {
    r.scope == scope && r.user == user
  }

  function Insert(db: Db, row: Row): Db {
    Db(db.rows + [row.(id := db.nextId)], db.nextId + 1)
  }

  /** Inserts only when no row has the three named columns. */
  function ReadOrCreate(db: Db, scope: int, user: int, group: int): Db {
    if exists r | r in db.rows :: Matches(r, scope, user, group) then db
    else Insert(db, Row(0, scope, user, group))
  }

  /** Removes every row with the three named columns. */
  function Delete(db: Db, scope: int, user: int, group: int): Db {
    db.(rows := Select(db.rows, (r: Row) => !Matches(r, scope, user, group)))
  }

  function DeletePair(db: Db, scope: int, user: int): Db {
    db.(rows := Select(db.rows, (r: Row) => !OfPair(r, scope, user)))
  }

  function DeleteId(db: Db, id: int): Db {
    db.(rows := Select(db.rows, (r: Row) => r.id != id))
  }

  function UpdateId(db: Db, row: Row): Db {
    db.(rows := seq(|db.rows|, i requires 0 <= i < |db.rows| => if db.rows[i].id == row.id then row else db.rows[i]))
  }

  // ---------------------------------------------------------------------------
  // What the table says

  function Groups(db: Db, scope: int, user: int): set<int> {
    set r | r in db.rows && r.scope == scope && r.user == user :: r.group
  }

  /** The rows of all other pairs, in order. */
  function Others(db: Db, scope: int, user: int): seq<Row> {
    Select(db.rows, (r: Row) => r.scope != scope || r.user != user)
  }

  /** No two rows agree in app or namespace, user and group. */
  ghost predicate NoDoubles(rows: seq<Row>) {
    forall i, j | 0 <= i < j < |rows| ::
      rows[i].scope != rows[j].scope || rows[i].user != rows[j].user || rows[i].group != rows[j].group
  }

  function SetOf(s: seq<int>): set<int> {
    set x | x in s
  }

  lemma OneMore(s: seq<int>, i: nat)
    requires i < |s|
    ensures s[..i + 1] == s[..i] + [s[i]] && SetOf(s[..i + 1]) == SetOf(s[..i]) + {s[i]}
  {
    assert s[..i + 1] == s[..i] + [s[i]];
  }

  /** A group that the pair has changes nothing; any other is appended as one row. */
  lemma CreateIs(db: Db, scope: int, user: int, group: int)
    ensures ReadOrCreate(db, scope, user, group)
         == if group in Groups(db, scope, user) then db
            else Db(db.rows + [Row(db.nextId, scope, user, group)], db.nextId + 1)
  {
    if group in Groups(db, scope, user) {
      var r :| r in db.rows && r.scope == scope && r.user == user && r.group == group;
      assert Matches(r, scope, user, group);
    }
  }

  lemma CreateGroups(db: Db, scope: int, user: int, group: int)
    ensures var next := ReadOrCreate(db, scope, user, group);
      && Groups(next, scope, user) == Groups(db, scope, user) + {group}
      && Others(next, scope, user) == Others(db, scope, user)
      && db.rows <= next.rows
  {
    CreateIs(db, scope, user, group);
    if group !in Groups(db, scope, user) {
      var row := Row(db.nextId, scope, user, group);
      var next := ReadOrCreate(db, scope, user, group);
      assert next.rows == db.rows + [row];
      SelectAppend(db.rows, [row], (r: Row) => r.scope != scope || r.user != user);
      assert forall r :: r in next.rows <==> r in db.rows || r == row;
      assert group in Groups(next, scope, user) by { assert row in next.rows; }
    }
  }

  lemma CreateNoDoubles(db: Db, scope: int, user: int, group: int)
    requires NoDoubles(db.rows)
    ensures NoDoubles(ReadOrCreate(db, scope, user, group).rows)
  {
    CreateIs(db, scope, user, group);
    if group !in Groups(db, scope, user) {
      assert forall i | 0 <= i < |db.rows| :: db.rows[i] in db.rows;
    }
  }

  /** Exactly the rows with the three columns go, and the others stay in their order. */
  lemma DeleteIs(db: Db, scope: int, user: int, group: int)
    ensures var next := Delete(db, scope, user, group);
      && next.nextId == db.nextId
      && (forall r :: r in next.rows <==>
            r in db.rows && !(r.scope == scope && r.user == user && r.group == group))
      && KeptInOrder(next.rows, db.rows, (r: Row) => r.scope != scope || r.user != user || r.group != group)
  {
    var keep := (r: Row) => !Matches(r, scope, user, group);
    var at := PlacesOf(db.rows, keep);
    assert Picks(at, Select(db.rows, keep), db.rows,
                 (r: Row) => r.scope != scope || r.user != user || r.group != group);
  }

  lemma DeleteKeeps(db: Db, scope: int, user: int, group: int)
    ensures var next := Delete(db, scope, user, group);
      && Others(next, scope, user) == Others(db, scope, user)
      && (NoDoubles(db.rows) ==> NoDoubles(next.rows))
  {
    var keep := (r: Row) => !Matches(r, scope, user, group);
    SelectDisjoint(db.rows, (r: Row) => r.scope != scope || r.user != user, keep);
    if NoDoubles(db.rows) { SelectNoDoubles(db.rows, keep); }
  }

  lemma SelectNoDoubles(rows: seq<Row>, p: Row -> bool)
    requires NoDoubles(rows)
    ensures NoDoubles(Select(rows, p))
  {
    var at := PlacesOf(rows, p);
  }

  lemma DeleteGroups(db: Db, scope: int, user: int, group: int)
    ensures Groups(Delete(db, scope, user, group), scope, user) == Groups(db, scope, user) - {group}
  {
    DeleteIs(db, scope, user, group);
    var next := Delete(db, scope, user, group);
    forall g | g in Groups(db, scope, user) - {group} ensures g in Groups(next, scope, user) {
      var r :| r in db.rows && r.scope == scope && r.user == user && r.group == g;
      assert r in next.rows;
    }
  }

  /** The groups in `a` that are not in `keep`, as the utility for slices computes it. */
  function SliceDiff(a: seq<int>, keep: seq<int>): seq<int> {
    if a == [] then []
    else SliceDiff(a[..|a| - 1], keep) + if a[|a| - 1] in keep then [] else [a[|a| - 1]]
  }

  lemma {:induction false} InSliceDiff(a: seq<int>, keep: seq<int>, g: int)
    ensures g in SliceDiff(a, keep) <==> g in a && g !in keep
  {
    if a != [] {
      InSliceDiff(a[..|a| - 1], keep, g);
      assert a == a[..|a| - 1] + [a[|a| - 1]];
    }
  }

  /** The group of every row of the pair, in order. */
  function GroupIds(rows: seq<Row>, scope: int, user: int): seq<int> {
    if rows == [] then []
    else
      var r := rows[|rows| - 1];
      GroupIds(rows[..|rows| - 1], scope, user) + if OfPair(r, scope, user) then [r.group] else []
  }

  lemma {:induction false} InGroupIds(rows: seq<Row>, scope: int, user: int, g: int)
    ensures g in GroupIds(rows, scope, user)
      <==> exists r | r in rows && r.scope == scope && r.user == user :: r.group == g
  {
    if rows != [] {
      InGroupIds(rows[..|rows| - 1], scope, user, g);
      assert rows == rows[..|rows| - 1] + [rows[|rows| - 1]];
    }
  }

  /** The list to delete holds the groups of the pair that are not wanted. */
  lemma UnwantedAre(db: Db, scope: int, user: int, keep: seq<int>)
    ensures SetOf(Unwanted(db, scope, user, keep)) == Groups(db, scope, user) - SetOf(keep)
  {
    forall g ensures g in Unwanted(db, scope, user, keep) <==> g in Groups(db, scope, user) && g !in keep {
      InSliceDiff(GroupIds(db.rows, scope, user), keep, g);
      InGroupIds(db.rows, scope, user, g);
    }
  }

  // ---------------------------------------------------------------------------
  // Membership update

  /** The number of statements from `from` on that succeed before one of `n` fails. */
  function FirstFault(faults: nat -> bool, from: nat, n: nat): (k: nat)
    ensures k <= n && (forall j | from <= j < from + k :: !faults(j)) && (k < n ==> faults(from + k))
    decreases n
  {
    if n == 0 || faults(from) then 0 else 1 + FirstFault(faults, from + 1, n - 1)
  }

  /** The groups left when creating stopped at the k-th one: those created, and the k-th if
      the pair had it already. Later ones are deleted, although they were requested. */
  function GroupsAfter(before: set<int>, groups: seq<int>, k: nat): set<int>
    requires k <= |groups|
  {
    SetOf(groups[..k]) + (if k < |groups| then before * {groups[k]} else {})
  }

  /** The pair has the groups left, a group it keeps keeps its row, and nothing else changes. */
  ghost predicate Replaced(before: Db, after: Db, m: Member, k: nat)
    requires k <= |m.groups|
  {
    var (scope, user) := (m.row.scope, m.row.user);
    && Groups(after, scope, user) == GroupsAfter(Groups(before, scope, user), m.groups, k)
    && Others(after, scope, user) == Others(before, scope, user)
    && (forall r: Row | r.scope == scope && r.user == user && r.group in Groups(before, scope, user) ::
          r in after.rows <==> r in before.rows && r.group in Groups(after, scope, user))
    && (NoDoubles(before.rows) ==> NoDoubles(after.rows))
  }

  /** Of the statements from `from` on, none fails but possibly the creation that ends the loop. */
  ghost predicate OnlyCreationFails(faults: nat -> bool, from: nat, to: nat, k: nat, n: nat) {
    forall i | from <= i < to && faults(i) :: k < n && i == from + k
  }

  ghost predicate NothingMissed(before: set<int>, groups: seq<int>, k: nat)
    requires k <= |groups|
  {
    forall i | k <= i < |groups| :: groups[i] in groups[..k] || (groups[i] == groups[k] && groups[k] in before)
  }

  /** Whatever fails, only requested groups are left, and all of them exactly when creating
      never stopped or everything from the stopping point on was there or created before. */
  lemma {:induction false} ReplacedIsWithinRequest(before: set<int>, groups: seq<int>, k: nat)
    requires k <= |groups|
    ensures GroupsAfter(before, groups, k) <= SetOf(groups)
    ensures GroupsAfter(before, groups, k) == SetOf(groups)
      <==> NothingMissed(before, groups, k)
  {
    assert groups[..|groups|] == groups;
    var after := GroupsAfter(before, groups, k);
    forall g | g in groups[..k] ensures g in SetOf(groups) {}
    if after == SetOf(groups) {
      forall i | k <= i < |groups|
        ensures groups[i] in groups[..k] || (groups[i] == groups[k] && groups[k] in before)
      {
        assert groups[i] in SetOf(groups);
      }
    }
    if NothingMissed(before, groups, k) {
      forall g | g in SetOf(groups) ensures g in after {
        var i :| 0 <= i < |groups| && groups[i] == g;
        if i < k { assert groups[..k][i] == g; }
      }
    }
  }

  /** What that means for a committed update. */
  lemma RequestReachedIff(before: Db, after: Db, m: Member, k: nat)
    requires k <= |m.groups| && Replaced(before, after, m, k)
    ensures Groups(after, m.row.scope, m.row.user) <= SetOf(m.groups)
    ensures Groups(after, m.row.scope, m.row.user) == SetOf(m.groups)
      <==> NothingMissed(Groups(before, m.row.scope, m.row.user), m.groups, k)
  {
    ReplacedIsWithinRequest(Groups(before, m.row.scope, m.row.user), m.groups, k);
  }

  /** What is deleted when the groups in `keep` are wanted. */
  function Unwanted(db: Db, scope: int, user: int, keep: seq<int>): seq<int> {
    SliceDiff(GroupIds(db.rows, scope, user), keep)
  }

  /** One deletion for each row of the pair whose group is not wanted. */
  lemma {:induction false} UnwantedCount(rows: seq<Row>, scope: int, user: int, keep: seq<int>)
    ensures |SliceDiff(GroupIds(rows, scope, user), keep)|
         == |Select(rows, (r: Row) => r.scope == scope && r.user == user && r.group !in keep)|
  {
    if rows != [] {
      var n := |rows| - 1;
      var ids := GroupIds(rows[..n], scope, user);
      var p := (r: Row) => r.scope == scope && r.user == user && r.group !in keep;
      UnwantedCount(rows[..n], scope, user, keep);
      assert rows == rows[..n] + [rows[n]];
      SelectAppend(rows[..n], [rows[n]], p);
      assert (ids + [rows[n].group])[..|ids|] == ids && ids + [] == ids;
      assert Select([rows[n]], p) == if p(rows[n]) then [rows[n]] else [];
    }
  }

  /** A wanted group adds nothing to delete. */
  lemma CreateKeepsUnwanted(db: Db, scope: int, user: int, group: int, keep: seq<int>)
    requires group in keep
    ensures Unwanted(ReadOrCreate(db, scope, user, group), scope, user, keep) == Unwanted(db, scope, user, keep)
  {
    var next := ReadOrCreate(db, scope, user, group);
    if next != db {
      var ids := GroupIds(db.rows, scope, user);
      assert next.rows[..|db.rows|] == db.rows;
      assert GroupIds(next.rows, scope, user) == ids + [group];
      assert (ids + [group])[..|ids|] == ids;
    }
  }

  /** How many creations are tried when the k-th fails, if any does. */
  function Tried(groups: seq<int>, k: nat): (n: nat)
    requires k <= |groups|
    ensures n <= |groups|
  {
    if k < |groups| then k + 1 else k
  }

  /** The table after the first `n` groups were created. */
  function Creations(db: Db, m: Member, n: nat): Db
    requires n <= |m.groups|
  {
    if n == 0 then db else ReadOrCreate(Creations(db, m, n - 1), m.row.scope, m.row.user, m.groups[n - 1])
  }

  lemma {:induction false} CreationsAdd(db: Db, m: Member, n: nat)
    requires n <= |m.groups|
    ensures Groups(Creations(db, m, n), m.row.scope, m.row.user)
         == Groups(db, m.row.scope, m.row.user) + SetOf(m.groups[..n])
  {
    if n > 0 {
      CreationsAdd(db, m, n - 1);
      CreateGroups(Creations(db, m, n - 1), m.row.scope, m.row.user, m.groups[n - 1]);
      OneMore(m.groups, n - 1);
    }
  }

  lemma {:induction false} CreationsKeepOthers(db: Db, m: Member, n: nat)
    requires n <= |m.groups|
    ensures Others(Creations(db, m, n), m.row.scope, m.row.user) == Others(db, m.row.scope, m.row.user)
  {
    if n > 0 {
      CreationsKeepOthers(db, m, n - 1);
      CreateGroups(Creations(db, m, n - 1), m.row.scope, m.row.user, m.groups[n - 1]);
    }
  }

  /** Rows are only appended, for groups the pair does not have. */
  lemma {:induction false} CreationsKeepRows(db: Db, m: Member, n: nat)
    requires n <= |m.groups|
    ensures var next := Creations(db, m, n);
      && db.rows <= next.rows
      && (forall r | r in next.rows && r !in db.rows ::
            r.scope == m.row.scope && r.user == m.row.user && r.group !in Groups(db, m.row.scope, m.row.user))
  {
    if n > 0 {
      CreationsKeepRows(db, m, n - 1);
      CreationsAdd(db, m, n - 1);
      CreateIs(Creations(db, m, n - 1), m.row.scope, m.row.user, m.groups[n - 1]);
    }
  }

  lemma {:induction false} CreationsNoDoubles(db: Db, m: Member, n: nat)
    requires n <= |m.groups| && NoDoubles(db.rows)
    ensures NoDoubles(Creations(db, m, n).rows)
  {
    if n > 0 {
      CreationsNoDoubles(db, m, n - 1);
      CreateNoDoubles(Creations(db, m, n - 1), m.row.scope, m.row.user, m.groups[n - 1]);
    }
  }

  lemma {:induction false} CreationsKeepUnwanted(db: Db, m: Member, n: nat, keep: seq<int>)
    requires n <= |m.groups| && forall i | 0 <= i < n :: m.groups[i] in keep
    ensures Unwanted(Creations(db, m, n), m.row.scope, m.row.user, keep) == Unwanted(db, m.row.scope, m.row.user, keep)
  {
    if n > 0 {
      CreationsKeepUnwanted(db, m, n - 1, keep);
      CreateKeepsUnwanted(Creations(db, m, n - 1), m.row.scope, m.row.user, m.groups[n - 1], keep);
    }
  }

  /** Creates what is requested; the error that ends the loop is shadowed and forgotten. */
  method CreateRequested(o: Session<Db>, m: Member) returns (newIds: seq<int>)
    modifies o`work, o`clock
    ensures var k := FirstFault(o.faults, old(o.clock), |m.groups|);
      newIds == m.groups[..Tried(m.groups, k)] && o.work == Creations(old(o.work), m, k)
    ensures o.clock == old(o.clock) + |newIds|
  {
    newIds := [];
    ghost var k := FirstFault(o.faults, old(o.clock), |m.groups|);
    for i := 0 to |m.groups|
      invariant i <= k && newIds == m.groups[..i] && o.clock == old(o.clock) + i
      invariant o.work == Creations(old(o.work), m, i)
    {
      newIds := newIds + [m.groups[i]];
      var ok := o.Exec(ReadOrCreate(o.work, m.row.scope, m.row.user, m.groups[i]));
      assert ok <==> i < k;
      if !ok { break; }
    }
  }

  /** The table after the listed groups were deleted. */
  function DeleteAll(db: Db, scope: int, user: int, groups: seq<int>): Db {
    if groups == [] then db
    else Delete(DeleteAll(db, scope, user, groups[..|groups| - 1]), scope, user, groups[|groups| - 1])
  }

  /** The rows of the listed groups are gone from the pair, and nothing else is. */
  ghost predicate AllDeleted(before: Db, after: Db, scope: int, user: int, groups: seq<int>) {
    && (forall r :: r in after.rows <==> r in before.rows && !(r.scope == scope && r.user == user && r.group in groups))
    && Others(after, scope, user) == Others(before, scope, user)
    && (NoDoubles(before.rows) ==> NoDoubles(after.rows))
  }

  lemma {:induction false} DeleteAllIs(db: Db, scope: int, user: int, groups: seq<int>)
    ensures AllDeleted(db, DeleteAll(db, scope, user, groups), scope, user, groups)
  {
    if groups != [] {
      var n := |groups| - 1;
      DeleteAllIs(db, scope, user, groups[..n]);
      OneMoreDeleted(db, DeleteAll(db, scope, user, groups[..n]), scope, user, groups[..n], groups[n]);
      assert groups == groups[..n] + [groups[n]];
    }
  }

  lemma OneMoreDeleted(db: Db, now: Db, scope: int, user: int, groups: seq<int>, group: int)
    requires AllDeleted(db, now, scope, user, groups)
    ensures AllDeleted(db, Delete(now, scope, user, group), scope, user, groups + [group])
  {
    DeleteIs(now, scope, user, group);
    DeleteKeeps(now, scope, user, group);
  }

  /** Deletes the groups one by one until a statement fails. */
  method DeleteEach(o: Session<Db>, scope: int, user: int, diff: seq<int>) returns (ok: bool)
    modifies o`work, o`clock
    ensures ok ==> o.work == DeleteAll(old(o.work), scope, user, diff)
    ensures var c := old(o.clock);
      && (ok <==> NoFaults(o.faults, c, c + |diff|))
      && (if ok then o.clock == c + |diff| else o.clock > c && o.faults(o.clock - 1))
  {
    ok := true;
    for i := 0 to |diff|
      invariant ok && o.clock == old(o.clock) + i && NoFaults(o.faults, old(o.clock), o.clock)
      invariant o.work == DeleteAll(old(o.work), scope, user, diff[..i])
    {
      assert diff[..i + 1][..i] == diff[..i];
      ok := o.Exec(Delete(o.work, scope, user, diff[i]));
      if !ok { return; }
    }
    assert diff[..|diff|] == diff;
  }

  /** Reads the pair's groups and deletes those that are not in `newIds`. */
  method DeleteUnwanted(o: Session<Db>, scope: int, user: int, newIds: seq<int>) returns (ok: bool)
    modifies o`work, o`clock
    ensures ok ==> o.work == DeleteAll(old(o.work), scope, user, old(Unwanted(o.work, scope, user, newIds)))
    ensures var c := old(o.clock); var n := 1 + |old(Unwanted(o.work, scope, user, newIds))|;
      && (ok <==> NoFaults(o.faults, c, c + n))
      && (if ok then o.clock == c + n else o.clock > c && o.faults(o.clock - 1))
  {
    ok := o.Read();
    if !ok { return; }
    var oldIds := GroupIds(o.work.rows, scope, user);
    var diff := SliceDiff(oldIds, newIds);
    ok := DeleteEach(o, scope, user, diff);
  }

  /** The table after both loops, when the k-th creation ends the first. */
  function Outcome(db: Db, m: Member, k: nat): Db
    requires k <= |m.groups|
  {
    DeleteAll(Creations(db, m, k), m.row.scope, m.row.user,
              Unwanted(db, m.row.scope, m.row.user, m.groups[..Tried(m.groups, k)]))
  }

  lemma OutcomeIs(db: Db, m: Member, k: nat)
    requires k <= |m.groups|
    ensures Replaced(db, Outcome(db, m, k), m, k)
  {
    OutcomeGroups(db, m, k);
    OutcomeRows(db, m, k);
  }

  lemma OutcomeGroups(db: Db, m: Member, k: nat)
    requires k <= |m.groups|
    ensures var next := Outcome(db, m, k); var (scope, user) := (m.row.scope, m.row.user);
      && Groups(next, scope, user) == GroupsAfter(Groups(db, scope, user), m.groups, k)
      && (forall r :: r in next.rows <==>
            && r in Creations(db, m, k).rows
            && (r.scope == scope && r.user == user ==> r.group in Groups(next, scope, user)))
  {
    var (scope, user) := (m.row.scope, m.row.user);
    var created, keep := Creations(db, m, k), m.groups[..Tried(m.groups, k)];
    CreationsAdd(db, m, k);
    CreationsKeepUnwanted(db, m, k, keep);
    UnwantedAre(created, scope, user, keep);
    DeleteAllIs(created, scope, user, Unwanted(created, scope, user, keep));
    KeptIsGroupsAfter(Groups(db, scope, user), m.groups, k);
    GroupsOfRest(created, Outcome(db, m, k), scope, user, Unwanted(created, scope, user, keep), keep);
  }

  lemma OutcomeRows(db: Db, m: Member, k: nat)
    requires k <= |m.groups|
    ensures var next := Outcome(db, m, k); var (scope, user) := (m.row.scope, m.row.user);
      && Others(next, scope, user) == Others(db, scope, user)
      && (forall r: Row | r.scope == scope && r.user == user && r.group in Groups(db, scope, user) ::
            r in next.rows <==> r in db.rows && r.group in Groups(next, scope, user))
      && (NoDoubles(db.rows) ==> NoDoubles(next.rows))
  {
    CreationsKeepOthers(db, m, k);
    CreationsKeepRows(db, m, k);
    OutcomeGroups(db, m, k);
    OutcomeDeletes(db, m, k);
    if NoDoubles(db.rows) { CreationsNoDoubles(db, m, k); }
  }

  lemma OutcomeDeletes(db: Db, m: Member, k: nat)
    requires k <= |m.groups|
    ensures var next, created := Outcome(db, m, k), Creations(db, m, k);
      && Others(next, m.row.scope, m.row.user) == Others(created, m.row.scope, m.row.user)
      && (NoDoubles(created.rows) ==> NoDoubles(next.rows))
  {
    DeleteAllIs(Creations(db, m, k), m.row.scope, m.row.user,
                Unwanted(db, m.row.scope, m.row.user, m.groups[..Tried(m.groups, k)]));
  }

  lemma GroupsOfRest(created: Db, next: Db, scope: int, user: int, diff: seq<int>, keep: seq<int>)
    requires forall r :: r in next.rows <==>
      r in created.rows && !(r.scope == scope && r.user == user && r.group in diff)
    requires SetOf(diff) == Groups(created, scope, user) - SetOf(keep)
    ensures Groups(next, scope, user) == Groups(created, scope, user) * SetOf(keep)
  {
    forall g ensures g in Groups(next, scope, user) <==> g in Groups(created, scope, user) && g in keep {
      if g in Groups(created, scope, user) && g in keep {
        var r :| r in created.rows && r.scope == scope && r.user == user && r.group == g;
        assert r.group !in SetOf(diff);
        assert r in next.rows;
      }
      if g in Groups(next, scope, user) {
        var r :| r in next.rows && r.scope == scope && r.user == user && r.group == g;
        assert r.group !in SetOf(diff);
      }
    }
  }

  /** What is created and then kept are the groups left. */
  lemma KeptIsGroupsAfter(before: set<int>, groups: seq<int>, k: nat)
    requires k <= |groups|
    ensures (before + SetOf(groups[..k])) * SetOf(groups[..Tried(groups, k)]) == GroupsAfter(before, groups, k)
  {
    if k < |groups| { OneMore(groups, k); }
  }

  /** The number of the statement behind the creations, which start at `from`. */
  function AfterCreations(faults: nat -> bool, from: nat, groups: seq<int>): nat {
    from + Tried(groups, FirstFault(faults, from, |groups|))
  }

  /** How many statements read and delete after the creations. */
  function Deletions(db: Db, m: Member, faults: nat -> bool, from: nat): nat {
    1 + |Unwanted(db, m.row.scope, m.row.user, m.groups[..Tried(m.groups, FirstFault(faults, from, |m.groups|))])|
  }

  /** The two loops in the open transaction, whatever creating ran into. */
  method ReplaceGroups(o: Session<Db>, m: Member) returns (ok: bool)
    modifies o`work, o`clock
    ensures ok ==> o.work == Outcome(old(o.work), m, FirstFault(o.faults, old(o.clock), |m.groups|))
    ensures var e := AfterCreations(o.faults, old(o.clock), m.groups);
      var n := Deletions(old(o.work), m, o.faults, old(o.clock));
      && (ok <==> NoFaults(o.faults, e, e + n))
      && (if ok then o.clock == e + n else o.clock > e && o.faults(o.clock - 1))
  {
    ghost var before, k := o.work, FirstFault(o.faults, o.clock, |m.groups|);
    var newIds := CreateRequested(o, m);
    CreationsKeepUnwanted(before, m, k, newIds);
    ok := DeleteUnwanted(o, m.row.scope, m.row.user, newIds);
  }

  /** The replacement in the open transaction, rolled back when a statement of its second loop
      fails. */
  method ReplaceAndCommit(o: Session<Db>, m: Member) returns (ok: bool)
    requires o.work == o.committed
    modifies o
    ensures var c := old(o.clock);
      var e := AfterCreations(o.faults, c, m.groups);
      var n := Deletions(old(o.committed), m, o.faults, c);
      && (ok <==> NoFaults(o.faults, e, e + n))
      && o.committed == (if ok && !o.faults(e + n)
                         then Outcome(old(o.committed), m, FirstFault(o.faults, c, |m.groups|))
                         else old(o.committed))
      && (if ok then o.clock == e + n + 1 else o.clock > e && o.faults(o.clock - 1))
  {
    ok := ReplaceGroups(o, m);
    if !ok {
      o.Rollback();
      return;
    }
    var committed := o.Commit();
  }

  /** The update of one row in the open transaction. */
  method UpdateAndCommit(o: Session<Db>, row: Row) returns (ok: bool)
    requires o.work == o.committed
    modifies o
    ensures var c := old(o.clock);
      && ok == !o.faults(c)
      && o.committed == (if ok && !o.faults(c + 1) then UpdateId(old(o.committed), row) else old(o.committed))
      && o.clock == if ok then c + 2 else c + 1
  {
    ok := o.Exec(UpdateId(o.work, row));
    if !ok {
      o.Rollback();
      return;
    }
    var committed := o.Commit();
  }

  method RunUpdate(o: Session<Db>, m: Member, allGroupFlag: bool) returns (err: Option<Error>)
    modifies o
    ensures o.clock > old(o.clock)
    ensures err.Some? ==> o.committed == old(o.committed) && o.faults(o.clock - 1)
    ensures allGroupFlag ==>
      var c := old(o.clock);
      var k := FirstFault(o.faults, c + 1, |m.groups|);
      var e := AfterCreations(o.faults, c + 1, m.groups);
      var n := Deletions(old(o.committed), m, o.faults, c + 1);
      && err == (if o.faults(c) then Some(BeginFailed)
                 else if !NoFaults(o.faults, e, e + n) then Some(StatementFailed)
                 else None)
      && o.committed == (if err.None? && !o.faults(e + n) then Outcome(old(o.committed), m, k) else old(o.committed))
      && (if err.None? then o.clock == e + n + 1 else err == Some(BeginFailed) || o.clock > e)
    ensures !allGroupFlag ==>
      var c := old(o.clock);
      && (err.Some? <==> o.faults(c) || o.faults(c + 1))
      && o.committed == (if o.faults(c) || o.faults(c + 1) || o.faults(c + 2) then old(o.committed)
                         else UpdateId(old(o.committed), m.row))
  {
    var ok := o.Begin();
    if !ok { return Some(BeginFailed); }
    if allGroupFlag {
      ok := ReplaceAndCommit(o, m);
    } else {
      ok := UpdateAndCommit(o, m.row);
    }
    return if ok then None else Some(StatementFailed);
  }

  /** The row with the id of the given one is replaced by it. */
  ghost predicate RowUpdated(before: Db, after: Db, row: Row) {
    && after.nextId == before.nextId && |after.rows| == |before.rows|
    && forall i | 0 <= i < |before.rows| ::
         after.rows[i] == if before.rows[i].id == row.id then row else before.rows[i]
  }

  /** Statements that fail nowhere include all creations, so that the request is reached. */
  lemma NoFaultsReach(before: Db, after: Db, m: Member, faults: nat -> bool, from: nat, to: nat)
    requires NoFaults(faults, from, to) && to > AfterCreations(faults, from, m.groups)
    requires Replaced(before, after, m, FirstFault(faults, from, |m.groups|))
    ensures Groups(after, m.row.scope, m.row.user) == SetOf(m.groups)
  {
    RequestReachedIff(before, after, m, FirstFault(faults, from, |m.groups|));
  }

  lemma UpdateIdIs(db: Db, row: Row)
    ensures RowUpdated(db, UpdateId(db, row), row)
  {}

  /** The groups are replaced exactly when nothing fails but possibly the creation that ends the
      first loop; a failing creation or commit is no error. */
  method UpdateGroups(o: Session<Db>, m: Member) returns (err: Option<Error>)
    modifies o
    ensures o.clock > old(o.clock)
    ensures err.Some? ==> o.committed == old(o.committed) && o.faults(o.clock - 1)
    ensures var c := old(o.clock);
      var k := FirstFault(o.faults, c + 1, |m.groups|);
      var e := AfterCreations(o.faults, c + 1, m.groups);
      var n := Deletions(old(o.committed), m, o.faults, c + 1);
      && err == (if o.faults(c) then Some(BeginFailed)
                 else if !NoFaults(o.faults, e, e + n) then Some(StatementFailed)
                 else None)
      && (if err.None? && !o.faults(e + n) then Replaced(old(o.committed), o.committed, m, k)
          else o.committed == old(o.committed))
      && (if err.None? then o.clock == e + n + 1 else err == Some(BeginFailed) || o.clock > e)
  {
    ghost var before, k := o.committed, FirstFault(o.faults, o.clock + 1, |m.groups|);
    err := RunUpdate(o, m, true);
    if o.committed == Outcome(before, m, k) { OutcomeIs(before, m, k); }
  }

  /** The same for one row. */
  method UpdateRow(o: Session<Db>, m: Member) returns (err: Option<Error>)
    modifies o
    ensures o.clock > old(o.clock)
    ensures err.Some? ==> o.committed == old(o.committed) && o.faults(o.clock - 1)
    ensures var c := old(o.clock);
      && (err.Some? <==> o.faults(c) || o.faults(c + 1))
      && (if o.faults(c) || o.faults(c + 1) || o.faults(c + 2) then o.committed == old(o.committed)
          else RowUpdated(old(o.committed), o.committed, m.row))
  {
    UpdateIdIs(o.committed, m.row);
    err := RunUpdate(o, m, false);
  }

  /** With the flag the groups are replaced, and the request is reached when no statement fails;
      without it one row is updated. */
  method UpdateById(o: Session<Db>, m: Member, allGroupFlag: bool) returns (err: Option<Error>)
    modifies o
    ensures o.clock > old(o.clock)
    ensures err.Some? ==> o.committed == old(o.committed) && o.faults(o.clock - 1)
    ensures allGroupFlag ==>
      var c := old(o.clock);
      var k := FirstFault(o.faults, c + 1, |m.groups|);
      var e := AfterCreations(o.faults, c + 1, m.groups);
      var n := Deletions(old(o.committed), m, o.faults, c + 1);
      && err == (if o.faults(c) then Some(BeginFailed)
                 else if !NoFaults(o.faults, e, e + n) then Some(StatementFailed)
                 else None)
      && (if err.None? && !o.faults(e + n) then Replaced(old(o.committed), o.committed, m, k)
          else o.committed == old(o.committed))
      && (if err.None? then o.clock == e + n + 1 else err == Some(BeginFailed) || o.clock > e)
    ensures allGroupFlag && NoFaults(o.faults, old(o.clock), o.clock) ==>
      err.None? && Groups(o.committed, m.row.scope, m.row.user) == SetOf(m.groups)
    ensures !allGroupFlag ==>
      var c := old(o.clock);
      && (err.Some? <==> o.faults(c) || o.faults(c + 1))
      && (if o.faults(c) || o.faults(c + 1) || o.faults(c + 2) then o.committed == old(o.committed)
          else RowUpdated(old(o.committed), o.committed, m.row))
  {
    if allGroupFlag {
      err := UpdateGroups(o, m);
      if NoFaults(o.faults, old(o.clock), o.clock) {
        NoFaultsReach(old(o.committed), o.committed, m, o.faults, old(o.clock) + 1, o.clock);
      }
    } else {
      err := UpdateRow(o, m);
    }
  }

  /** In general: a call in which nothing fails but the creation that ends the loop reports success
      and commits what that loop left. */
  method UpdateDespiteCreation(o: Session<Db>, m: Member) returns (err: Option<Error>)
    modifies o
    ensures var c := old(o.clock); var k := FirstFault(o.faults, c + 1, |m.groups|);
      !o.faults(c) && OnlyCreationFails(o.faults, c + 1, o.clock, k, |m.groups|) ==>
        err.None? && Replaced(old(o.committed), o.committed, m, k)
  {
    err := UpdateById(o, m, true);
  }

  /** A run in which nothing but one creation fails: the update reports success, and a group is
      gone that the user had and that was requested. The group whose creation failed stays. */
  method SwallowedFailure() returns (before: Db, after: Db, m: Member, err: Option<Error>)
    ensures err.None? && m.groups == [2, 3]
    ensures Groups(before, m.row.scope, m.row.user) == {2, 3}
    ensures Groups(after, m.row.scope, m.row.user) == {2}
  {
    before := Db([Row(1, 7, 8, 2), Row(2, 7, 8, 3)], 3);
    m := Member(Row(0, 7, 8, 0), [2, 3]);
    var o := new Session<Db>(before, n => n == 1);
    err := UpdateById(o, m, true);
    after := o.committed;
    assert before.rows[0] in before.rows && before.rows[1] in before.rows;
    assert Groups(before, 7, 8) == {2, 3};
  }

  // ---------------------------------------------------------------------------
  // Adding and deleting

  /** The groups among the first `n` whose statement succeeds. */
  function Added(groups: seq<int>, faults: nat -> bool, from: nat, n: nat): set<int>
    requires n <= |groups|
  {
    set i | 0 <= i < n && !faults(from + i) :: groups[i]
  }

  /** The groups were added as rows behind the others, each once and none that was there. */
  ghost predicate Extended(before: Db, after: Db, scope: int, user: int, added: set<int>) {
    && before.rows <= after.rows
    && Groups(after, scope, user) == Groups(before, scope, user) + added
    && Others(after, scope, user) == Others(before, scope, user)
    && (forall r | r in after.rows && r !in before.rows ::
          r.scope == scope && r.user == user && r.group !in Groups(before, scope, user))
    && (NoDoubles(before.rows) ==> NoDoubles(after.rows))
  }

  /** The table after one creation, unless it fails. */
  function AddOne(now: Db, m: Member, group: int, fails: bool): Db {
    if fails then now else ReadOrCreate(now, m.row.scope, m.row.user, group)
  }

  /** The table after those of the first `n` creations that do not fail. */
  function AddAll(db: Db, m: Member, faults: nat -> bool, from: nat, n: nat): Db
    requires n <= |m.groups|
  {
    if n == 0 then db
    else AddOne(AddAll(db, m, faults, from, n - 1), m, m.groups[n - 1], faults(from + n - 1))
  }

  ghost predicate AddedTo(db: Db, now: Db, m: Member, faults: nat -> bool, from: nat, n: nat) {
    n <= |m.groups| && Extended(db, now, m.row.scope, m.row.user, Added(m.groups, faults, from, n))
  }

  lemma {:induction false} AddAllIs(db: Db, m: Member, faults: nat -> bool, from: nat, n: nat)
    requires n <= |m.groups|
    ensures AddedTo(db, AddAll(db, m, faults, from, n), m, faults, from, n)
  {
    if n == 0 {
      NoneAdded(db, m, faults, from);
    } else {
      AddAllIs(db, m, faults, from, n - 1);
      OneMoreAdded(db, AddAll(db, m, faults, from, n - 1), m, faults, from, n);
    }
  }

  lemma NoneAdded(db: Db, m: Member, faults: nat -> bool, from: nat)
    ensures AddedTo(db, db, m, faults, from, 0)
  {
    assert Added(m.groups, faults, from, 0) == {};
    ExtendedNone(db, m.row.scope, m.row.user);
  }

  lemma OneMoreAdded(db: Db, now: Db, m: Member, faults: nat -> bool, from: nat, n: nat)
    requires 0 < n <= |m.groups| && AddedTo(db, now, m, faults, from, n - 1)
    ensures AddedTo(db, AddOne(now, m, m.groups[n - 1], faults(from + n - 1)), m, faults, from, n)
  {
    AddedStep(m.groups, faults, from, n - 1);
    if !faults(from + n - 1) {
      ExtendedStep(db, now, m.row.scope, m.row.user, Added(m.groups, faults, from, n - 1), m.groups[n - 1]);
    }
  }

  lemma ExtendedNone(db: Db, scope: int, user: int)
    ensures Extended(db, db, scope, user, {})
  {}

  lemma AddedStep(groups: seq<int>, faults: nat -> bool, from: nat, n: nat)
    requires n < |groups|
    ensures Added(groups, faults, from, n + 1)
         == Added(groups, faults, from, n) + if faults(from + n) then {} else {groups[n]}
  {}

  lemma ExtendedStep(db: Db, now: Db, scope: int, user: int, added: set<int>, group: int)
    requires Extended(db, now, scope, user, added)
    ensures Extended(db, ReadOrCreate(now, scope, user, group), scope, user, added + {group})
  {
    CreateGroups(now, scope, user, group);
    CreateIs(now, scope, user, group);
    if NoDoubles(now.rows) { CreateNoDoubles(now, scope, user, group); }
  }

  /** The table after the loop. */
  function AddOutcome(db: Db, m: Member, faults: nat -> bool, from: nat): Db {
    AddAll(db, m, faults, from, |m.groups|)
  }

  lemma AddOutcomeIs(db: Db, m: Member, faults: nat -> bool, from: nat)
    ensures Extended(db, AddOutcome(db, m, faults, from), m.row.scope, m.row.user,
                     Added(m.groups, faults, from, |m.groups|))
  {
    AddAllIs(db, m, faults, from, |m.groups|);
  }

  /** The additions in the open transaction; a failing one is skipped. */
  method AddAndCommit(o: Session<Db>, m: Member)
    requires o.work == o.committed
    modifies o
    ensures var c, n := old(o.clock), |m.groups|;
      && o.clock == c + n + 1
      && o.committed == (if o.faults(c + n) then old(o.committed) else AddOutcome(old(o.committed), m, o.faults, c))
  {
    AddGroups(o, m);
    var committed := o.Commit();
  }

  method ExtendAndCommit(o: Session<Db>, m: Member)
    requires o.work == o.committed
    modifies o
    ensures var c, n := old(o.clock), |m.groups|;
      && o.clock == c + n + 1
      && (if o.faults(c + n) then o.committed == old(o.committed)
          else Extended(old(o.committed), o.committed, m.row.scope, m.row.user, Added(m.groups, o.faults, c, n)))
  {
    AddOutcomeIs(o.committed, m, o.faults, o.clock);
    AddAndCommit(o, m);
  }

  /** One row in the open transaction, under the next id. */
  method InsertAndCommit(o: Session<Db>, row: Row) returns (id: int, ok: bool)
    requires o.work == o.committed
    modifies o
    ensures var c := old(o.clock);
      && ok == !o.faults(c)
      && (ok ==> id == old(o.committed.nextId))
      && o.committed == (if ok && !o.faults(c + 1) then Insert(old(o.committed), row) else old(o.committed))
  {
    id := 0;
    var next := o.work.nextId;
    ok := o.Exec(Insert(o.work, row));
    if !ok {
      o.Rollback();
      return;
    }
    id := next;
    var committed := o.Commit();
  }

  /** Adding skips the groups whose statement fails and commits the others; no row that was
      there is changed or moved. */
  method Add(o: Session<Db>, m: Member, allGroupFlag: bool) returns (id: int, err: Option<Error>)
    modifies o
    ensures err.Some? ==> o.committed == old(o.committed)
    ensures allGroupFlag ==>
      var c := old(o.clock);
      if o.faults(c) || o.faults(c + 1 + |m.groups|) then o.committed == old(o.committed)
      else Extended(old(o.committed), o.committed, m.row.scope, m.row.user,
                    Added(m.groups, o.faults, c + 1, |m.groups|))
    ensures !allGroupFlag ==>
      var c := old(o.clock);
      && (err.None? ==> id == old(o.committed.nextId))
      && if o.faults(c) || o.faults(c + 1) || o.faults(c + 2) then o.committed == old(o.committed)
         else
           && o.committed.nextId == old(o.committed.nextId) + 1
           && o.committed.rows == old(o.committed.rows)
                + [Row(old(o.committed.nextId), m.row.scope, m.row.user, m.row.group)]
    ensures err.Some? <==> o.faults(old(o.clock)) || (!allGroupFlag && o.faults(old(o.clock) + 1))
    ensures allGroupFlag && NoFaults(o.faults, old(o.clock), o.clock) ==>
      Extended(old(o.committed), o.committed, m.row.scope, m.row.user, SetOf(m.groups))
  {
    var ok := o.Begin();
    if !ok { return 0, Some(BeginFailed); }
    if allGroupFlag {
      AddedAll(m.groups, o.faults, o.clock);
      ExtendAndCommit(o, m);
      return 0, None;
    }
    id, ok := InsertAndCommit(o, m.row);
    err := if ok then None else Some(StatementFailed);
  }

  lemma AddedAll(groups: seq<int>, faults: nat -> bool, from: nat)
    ensures NoFaults(faults, from, from + |groups|) ==> Added(groups, faults, from, |groups|) == SetOf(groups)
  {
    if NoFaults(faults, from, from + |groups|) {
      forall g | g in SetOf(groups) ensures g in Added(groups, faults, from, |groups|) {
        var i :| 0 <= i < |groups| && groups[i] == g;
        assert !faults(from + i);
      }
    }
  }

  method AddGroups(o: Session<Db>, m: Member)
    modifies o`work, o`clock
    ensures o.work == AddOutcome(old(o.work), m, o.faults, old(o.clock))
    ensures o.clock == old(o.clock) + |m.groups|
  {
    for i := 0 to |m.groups|
      invariant o.clock == old(o.clock) + i
      invariant o.work == AddAll(old(o.work), m, o.faults, old(o.clock), i)
    {
      var ok := o.Exec(ReadOrCreate(o.work, m.row.scope, m.row.user, m.groups[i]));
    }
  }

  lemma DeletePairIs(db: Db, scope: int, user: int)
    ensures Filtered(db, DeletePair(db, scope, user), (r: Row) => r.scope != scope || r.user != user)
  {
    var keep := (r: Row) => !OfPair(r, scope, user);
    SelectKeeps(db.rows, keep);
    var at: seq<nat> :| Picks(at, Select(db.rows, keep), db.rows, keep);
    assert Picks(at, Select(db.rows, keep), db.rows, (r: Row) => r.scope != scope || r.user != user);
  }

  lemma DeleteIdIs(db: Db, id: int)
    ensures Filtered(db, DeleteId(db, id), (r: Row) => r.id != id)
  {
    SelectKeeps(db.rows, (r: Row) => r.id != id);
  }

  /** Exactly the rows that satisfy `p` are left, in their order. */
  ghost predicate Filtered(before: Db, after: Db, p: Row -> bool) {
    && after.nextId == before.nextId
    && KeptInOrder(after.rows, before.rows, p)
    && forall r :: r in after.rows <==> r in before.rows && p(r)
  }

  method RunDelete(o: Session<Db>, id: int, allGroupFlag: bool) returns (err: Option<Error>, ghost v: Row)
    modifies o
    ensures err ==
      if o.faults(old(o.clock)) then Some(StatementFailed)
      else if !exists r | r in old(o.committed.rows) :: r.id == id then Some(NoRow)
      else if o.faults(old(o.clock) + 1) then Some(StatementFailed)
      else None
    ensures err.Some? ==> o.committed == old(o.committed)
    ensures err.None? ==>
      && v in old(o.committed.rows) && v.id == id
      && o.committed == if allGroupFlag then DeletePair(old(o.committed), v.scope, v.user)
                        else DeleteId(old(o.committed), id)
  {
    v := Row(id, 0, 0, 0);
    var ok := o.Read();
    if !ok { return Some(StatementFailed), v; }
    var found := Select(o.committed.rows, (r: Row) => r.id == id);
    if found == [] { return Some(NoRow), v; }
    var first := found[0];
    assert first in found;
    v := first;
    if allGroupFlag {
      ok := o.ExecNow(DeletePair(o.committed, first.scope, first.user));
    } else {
      ok := o.ExecNow(DeleteId(o.committed, id));
    }
    err := if ok then None else Some(StatementFailed);
  }

  /** Deletes the row, or with the flag every row of the row's pair; one statement either way. */
  method DeleteById(o: Session<Db>, id: int, allGroupFlag: bool) returns (err: Option<Error>)
    modifies o
    ensures err ==
      if o.faults(old(o.clock)) then Some(StatementFailed)
      else if !exists r | r in old(o.committed.rows) :: r.id == id then Some(NoRow)
      else if o.faults(old(o.clock) + 1) then Some(StatementFailed)
      else None
    ensures err.Some? ==> o.committed == old(o.committed)
    ensures err.None? && !allGroupFlag ==> Filtered(old(o.committed), o.committed, (r: Row) => r.id != id)
    ensures err.None? && allGroupFlag ==> exists v | v in old(o.committed.rows) && v.id == id ::
      Filtered(old(o.committed), o.committed, (r: Row) => r.scope != v.scope || r.user != v.user)
  {
    ghost var before := o.committed;
    ghost var v;
    err, v := RunDelete(o, id, allGroupFlag);
    if err.None? {
      if allGroupFlag { DeletePairIs(before, v.scope, v.user); } else { DeleteIdIs(before, id); }
    }
  }
}
