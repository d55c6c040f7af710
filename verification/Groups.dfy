/**
  Permission groups and the link table between groups and permissions, changed together in
  one transaction.
 */
module Groups {
  import opened Sequences
  import opened Transactions
  import opened Wrappers

  datatype Group = Group(id: int, name: string, comment: string, kind: int)
  datatype Link = Link(group: int, permission: int)
  datatype Db = Db(groups: seq<Group>, links: seq<Link>, nextId: int)

  // ---------------------------------------------------------------------------
  // Statements

  function InsertGroup(db: Db, g: Group): Db {
    Db(db.groups + [g.(id := db.nextId)], db.links, db.nextId + 1)
  }

  function UpdateGroup(db: Db, g: Group): Db {
    db.(groups := seq(|db.groups|, i requires 0 <= i < |db.groups| =>
                        if db.groups[i].id == g.id then g else db.groups[i]))
  }

  function DeleteGroupRow(db: Db, id: int): Db {
    db.(groups := Select(db.groups, (g: Group) => g.id != id))
  }

  function ClearLinks(db: Db, id: int): Db {
    db.(links := Select(db.links, (l: Link) => l.group != id))
  }

  function AddLinks(db: Db, id: int, permissions: seq<int>): Db {
    db.(links := db.links + LinkRows(id, permissions))
  }

  function LinkRows(id: int, permissions: seq<int>): (r: seq<Link>)
    ensures |r| == |permissions| && forall i | 0 <= i < |r| :: r[i] == Link(id, permissions[i])
  {
    if permissions == [] then [] else [Link(id, permissions[0])] + LinkRows(id, permissions[1..])
  }

  predicate HasGroup(db: Db, id: int) {
    exists g | g in db.groups :: g.id == id
  }

  // ---------------------------------------------------------------------------
  // What the tables say

  function LinksOf(db: Db, id: int): seq<Link> {
    Select(db.links, (l: Link) => l.group == id)
  }

  function OtherLinks(db: Db, id: int): seq<Link> {
    Select(db.links, (l: Link) => l.group != id)
  }

  /** Ids are below the next one and links belong to groups that were inserted. */
  ghost predicate Consistent(db: Db) {
    && (forall g | g in db.groups :: g.id < db.nextId)
    && (forall l | l in db.links :: l.group < db.nextId)
  }

  lemma {:induction false} SelectAll<T(!new)>(rows: seq<T>, p: T -> bool)
    ensures (forall x | x in rows :: p(x)) ==> Select(rows, p) == rows
    ensures (forall x | x in rows :: !p(x)) ==> Select(rows, p) == []
  {
    if rows != [] {
      assert rows[0] in rows && forall x | x in rows[1..] :: x in rows;
      SelectAll(rows[1..], p);
    }
  }

  lemma LinksAfterAdd(db: Db, id: int, permissions: seq<int>)
    ensures LinksOf(AddLinks(db, id, permissions), id) == LinksOf(db, id) + LinkRows(id, permissions)
    ensures OtherLinks(AddLinks(db, id, permissions), id) == OtherLinks(db, id)
  {
    var rows := LinkRows(id, permissions);
    SelectAppend(db.links, rows, (l: Link) => l.group == id);
    SelectAppend(db.links, rows, (l: Link) => l.group != id);
    SelectAll(rows, (l: Link) => l.group == id);
    SelectAll(rows, (l: Link) => l.group != id);
  }

  lemma LinksAfterClear(db: Db, id: int)
    ensures LinksOf(ClearLinks(db, id), id) == [] && OtherLinks(ClearLinks(db, id), id) == OtherLinks(db, id)
  {
    SelectAll(OtherLinks(db, id), (l: Link) => l.group == id);
    SelectDisjoint(db.links, (l: Link) => l.group != id, (l: Link) => l.group != id);
  }

  lemma NoLinksYet(db: Db)
    requires Consistent(db)
    ensures LinksOf(db, db.nextId) == [] && OtherLinks(db, db.nextId) == db.links
  {
    SelectAll(db.links, (l: Link) => l.group == db.nextId);
    SelectAll(db.links, (l: Link) => l.group != db.nextId);
  }

  // ---------------------------------------------------------------------------
  // The three changes, complete

  /** The links of one group are exactly those to the permissions, in their order, and all other
      links are there as before, in theirs. */
  ghost predicate Linked(before: seq<Link>, after: Db, id: int, permissions: seq<int>) {
    && LinksOf(after, id) == LinkRows(id, permissions)
    && KeptInOrder(OtherLinks(after, id), before, (l: Link) => l.group != id)
    && forall l :: l in after.links <==>
         if l.group == id then l.permission in permissions else l in before
  }

  /** A row is added at the end under the next id, with its links. */
  ghost predicate Inserted(before: Db, after: Db, g: Group, permissions: seq<int>) {
    var id := before.nextId;
    && after.groups == before.groups + [Group(id, g.name, g.comment, g.kind)] && after.nextId == id + 1
    && Linked(before.links, after, id, permissions)
  }

  /** Each row with the id of the given one is replaced by it, and the links are the requested. */
  ghost predicate Changed(before: Db, after: Db, g: Group, permissions: seq<int>) {
    && |after.groups| == |before.groups| && after.nextId == before.nextId
    && (forall i | 0 <= i < |before.groups| ::
          after.groups[i] == if before.groups[i].id == g.id then g else before.groups[i])
    && Linked(before.links, after, g.id, permissions)
  }

  /** Exactly the rows and links of the group are gone, and the others are in their order. */
  ghost predicate Removed(before: Db, after: Db, id: int) {
    && after.nextId == before.nextId
    && (forall g :: g in after.groups <==> g in before.groups && g.id != id)
    && KeptInOrder(after.groups, before.groups, (g: Group) => g.id != id)
    && (forall l :: l in after.links <==> l in before.links && l.group != id)
    && KeptInOrder(after.links, before.links, (l: Link) => l.group != id)
  }

  function LinkStatements(permissions: seq<int>): nat {
    if |permissions| > 0 then 1 else 0
  }

  /** A list of permissions is added in one statement, an empty one in none. */
  method AddPermissions(o: Session<Db>, id: int, permissions: seq<int>) returns (ok: bool)
    modifies o`work, o`clock
    ensures ok ==> o.work == AddLinks(old(o.work), id, permissions)
    ensures o.clock == old(o.clock) + LinkStatements(permissions)
    ensures ok <==> NoFaults(o.faults, old(o.clock), o.clock)
  {
    ok := true;
    if |permissions| > 0 {
      ok := o.Exec(AddLinks(o.work, id, permissions));
    } else {
      assert AddLinks(o.work, id, permissions) == o.work;
    }
  }

  function Added(db: Db, g: Group, permissions: seq<int>): Db {
    AddLinks(InsertGroup(db, g), db.nextId, permissions)
  }

  lemma AddedIsInserted(db: Db, g: Group, permissions: seq<int>)
    requires Consistent(db)
    ensures Inserted(db, Added(db, g, permissions), g, permissions) && Consistent(Added(db, g, permissions))
  {
    NoLinksYet(db);
    LinksAfterAdd(InsertGroup(db, g), db.nextId, permissions);
    LinkedAfterAdd(InsertGroup(db, g), db.nextId, permissions);
  }

  lemma LinkedAfterAdd(db: Db, id: int, permissions: seq<int>)
    requires LinksOf(db, id) == []
    ensures Linked(db.links, AddLinks(db, id, permissions), id, permissions)
  {
    LinksAfterAdd(db, id, permissions);
    SelectKeeps(db.links, (l: Link) => l.group != id);
    var rows, next := LinkRows(id, permissions), AddLinks(db, id, permissions);
    forall l ensures l in next.links <==> if l.group == id then l.permission in permissions else l in db.links {
      assert l in next.links <==> l in db.links || l in rows;
      assert l in db.links && l.group == id <==> l in LinksOf(db, id);
      assert l in rows <==> l.group == id && l.permission in permissions by {
        if l.permission in permissions && l.group == id {
          var i :| 0 <= i < |permissions| && permissions[i] == l.permission;
          assert rows[i] == l;
        }
      }
    }
  }

  method RunAdd(o: Session<Db>, g: Group, permissions: seq<int>) returns (id: int, err: Option<Error>)
    modifies o
    ensures var c := old(o.clock); var n := 2 + LinkStatements(permissions);
      && err == (if o.faults(c) then Some(BeginFailed)
                 else if !NoFaults(o.faults, c, c + n) then Some(StatementFailed)
                 else None)
      && o.committed == (if NoFaults(o.faults, c, c + n + 1) then Added(old(o.committed), g, permissions)
                         else old(o.committed))
      && (if err.None? then o.clock == c + n + 1 else o.clock > c && o.faults(o.clock - 1))
    ensures err.None? ==> id == old(o.committed.nextId)
  {
    var ok := o.Begin();
    if !ok { return 0, Some(BeginFailed); }
    id := o.work.nextId;
    ok := o.Exec(InsertGroup(o.work, g));
    if !ok {
      o.Rollback();
      return 0, Some(StatementFailed);
    }
    ok := AddPermissions(o, id, permissions);
    if !ok {
      o.Rollback();
      return id, Some(StatementFailed);
    }
    var committed := o.Commit();
    return id, None;
  }

  /** Both tables change or neither does: both exactly when no statement up to the commit fails.
      A failing commit is no error. */
  method AddGroup(o: Session<Db>, g: Group, permissions: seq<int>) returns (id: int, err: Option<Error>)
    requires Consistent(o.committed)
    modifies o
    ensures Consistent(o.committed)
    ensures var c := old(o.clock); var n := if permissions == [] then 2 else 3;
      && err == (if o.faults(c) then Some(BeginFailed)
                 else if !NoFaults(o.faults, c, c + n) then Some(StatementFailed)
                 else None)
      && (if NoFaults(o.faults, c, c + n + 1) then Inserted(old(o.committed), o.committed, g, permissions)
          else o.committed == old(o.committed))
      && (if err.None? then o.clock == c + n + 1 else o.clock > c && o.faults(o.clock - 1))
    ensures err.None? ==> id == old(o.committed.nextId)
  {
    AddedIsInserted(o.committed, g, permissions);
    id, err := RunAdd(o, g, permissions);
  }

  function Rewritten(db: Db, g: Group, permissions: seq<int>): Db {
    AddLinks(ClearLinks(UpdateGroup(db, g), g.id), g.id, permissions)
  }

  lemma RewrittenIsChanged(db: Db, g: Group, permissions: seq<int>)
    requires Consistent(db)
    ensures Changed(db, Rewritten(db, g, permissions), g, permissions)
    ensures HasGroup(db, g.id) ==> Consistent(Rewritten(db, g, permissions))
  {
    var updated := UpdateGroup(db, g);
    LinksAfterClear(updated, g.id);
    LinksAfterAdd(ClearLinks(updated, g.id), g.id, permissions);
    LinkedAfterAdd(ClearLinks(updated, g.id), g.id, permissions);
    LinkedAfterClear(db, updated, g.id, Rewritten(db, g, permissions), permissions);
    if HasGroup(db, g.id) { UpdateKeepsConsistent(db, g); }
  }

  /** Clearing first makes no difference to the other links. */
  lemma LinkedAfterClear(db: Db, updated: Db, id: int, next: Db, permissions: seq<int>)
    requires updated.links == db.links && Linked(ClearLinks(updated, id).links, next, id, permissions)
    requires OtherLinks(next, id) == OtherLinks(db, id)
    ensures Linked(db.links, next, id, permissions)
  {
    SelectKeeps(db.links, (l: Link) => l.group != id);
  }

  lemma UpdateKeepsConsistent(db: Db, g: Group)
    requires Consistent(db) && HasGroup(db, g.id)
    ensures Consistent(UpdateGroup(db, g))
  {
    var groups := UpdateGroup(db, g).groups;
    forall x | x in groups ensures x.id < db.nextId {
      var i :| 0 <= i < |groups| && groups[i] == x;
      assert db.groups[i] in db.groups;
    }
  }

  /** The three statements of an update, up to the first that fails. */
  method Rewrite(o: Session<Db>, g: Group, permissions: seq<int>) returns (ok: bool)
    modifies o`work, o`clock
    ensures ok ==> o.work == Rewritten(old(o.work), g, permissions)
    ensures var c := old(o.clock); var n := 2 + LinkStatements(permissions);
      && (ok <==> NoFaults(o.faults, c, c + n))
      && (if ok then o.clock == c + n else o.clock > c && o.faults(o.clock - 1))
  {
    ok := o.Exec(UpdateGroup(o.work, g));
    if !ok { return; }
    ok := o.Exec(ClearLinks(o.work, g.id));
    if !ok { return; }
    ok := AddPermissions(o, g.id, permissions);
  }

  /** The update of a group that is there: rolled back when a statement fails. */
  method RewriteAndCommit(o: Session<Db>, g: Group, permissions: seq<int>) returns (ok: bool)
    requires o.work == o.committed
    modifies o
    ensures var c := old(o.clock); var n := 2 + LinkStatements(permissions);
      && (ok <==> NoFaults(o.faults, c, c + n))
      && o.committed == (if ok && !o.faults(c + n) then Rewritten(old(o.committed), g, permissions)
                         else old(o.committed))
      && (if ok then o.clock == c + n + 1 else o.clock > c && o.faults(o.clock - 1))
  {
    ok := Rewrite(o, g, permissions);
    if !ok {
      o.Rollback();
      return;
    }
    var committed := o.Commit();
  }

  method RunUpdate(o: Session<Db>, g: Group, permissions: seq<int>) returns (err: Option<Error>)
    modifies o
    ensures var c := old(o.clock); var n := 4 + LinkStatements(permissions);
      && err == (if o.faults(c) then Some(BeginFailed)
                 else if o.faults(c + 1) then Some(StatementFailed)
                 else if !HasGroup(old(o.committed), g.id) then Some(NoRow)
                 else if !NoFaults(o.faults, c + 2, c + n) then Some(StatementFailed)
                 else None)
      && o.committed == (if err.None? && !o.faults(c + n) then Rewritten(old(o.committed), g, permissions)
                         else old(o.committed))
      && (if err.None? then o.clock == c + n + 1
          else o.clock > c && (err == Some(NoRow) || o.faults(o.clock - 1)))
  {
    var ok := o.Begin();
    if !ok { return Some(BeginFailed); }
    ok := o.Read();
    if !ok { return Some(StatementFailed); }
    if !HasGroup(o.work, g.id) { return Some(NoRow); }
    ok := RewriteAndCommit(o, g, permissions);
    return if ok then None else Some(StatementFailed);
  }

  method UpdateGroupById(o: Session<Db>, g: Group, permissions: seq<int>) returns (err: Option<Error>)
    requires Consistent(o.committed)
    modifies o
    ensures Consistent(o.committed)
    ensures var c := old(o.clock); var n := if permissions == [] then 4 else 5;
      && err == (if o.faults(c) then Some(BeginFailed)
                 else if o.faults(c + 1) then Some(StatementFailed)
                 else if !(exists x | x in old(o.committed.groups) :: x.id == g.id) then Some(NoRow)
                 else if !NoFaults(o.faults, c + 2, c + n) then Some(StatementFailed)
                 else None)
      && (if err.None? && !o.faults(c + n) then Changed(old(o.committed), o.committed, g, permissions)
          else o.committed == old(o.committed))
      && (if err.None? then o.clock == c + n + 1
          else o.clock > c && (err == Some(NoRow) || o.faults(o.clock - 1)))
  {
    RewrittenIsChanged(o.committed, g, permissions);
    err := RunUpdate(o, g, permissions);
  }

  function Deleted(db: Db, id: int): Db {
    DeleteGroupRow(ClearLinks(db, id), id)
  }

  lemma DeletedIsRemoved(db: Db, id: int)
    requires Consistent(db)
    ensures Removed(db, Deleted(db, id), id) && Consistent(Deleted(db, id))
  {
    SelectKeeps(db.groups, (g: Group) => g.id != id);
    SelectKeeps(db.links, (l: Link) => l.group != id);
  }

  method RunDelete(o: Session<Db>, id: int) returns (err: Option<Error>)
    modifies o
    ensures var c := old(o.clock); var n := 4;
      && err == (if o.faults(c) then Some(BeginFailed)
                 else if o.faults(c + 1) then Some(StatementFailed)
                 else if !HasGroup(old(o.committed), id) then Some(NoRow)
                 else if !NoFaults(o.faults, c + 2, c + n) then Some(StatementFailed)
                 else None)
      && o.committed == (if err.None? && !o.faults(c + n) then Deleted(old(o.committed), id) else old(o.committed))
      && (if err.None? then o.clock == c + n + 1
          else o.clock > c && (err == Some(NoRow) || o.faults(o.clock - 1)))
  {
    var ok := o.Begin();
    if !ok { return Some(BeginFailed); }
    ok := o.Read();
    if !ok || !HasGroup(o.work, id) {
      o.Rollback();
      return Some(if ok then NoRow else StatementFailed);
    }
    ok := o.Exec(ClearLinks(o.work, id));
    if !ok {
      o.Rollback();
      return Some(StatementFailed);
    }
    ok := o.Exec(DeleteGroupRow(o.work, id));
    if !ok {
      o.Rollback();
      return Some(StatementFailed);
    }
    var committed := o.Commit();
    return None;
  }

  method DeleteGroup(o: Session<Db>, id: int) returns (err: Option<Error>)
    requires Consistent(o.committed)
    modifies o
    ensures Consistent(o.committed)
    ensures var c := old(o.clock); var n := 4;
      && err == (if o.faults(c) then Some(BeginFailed)
                 else if o.faults(c + 1) then Some(StatementFailed)
                 else if !(exists x | x in old(o.committed.groups) :: x.id == id) then Some(NoRow)
                 else if !NoFaults(o.faults, c + 2, c + n) then Some(StatementFailed)
                 else None)
      && (if err.None? && !o.faults(c + n) then Removed(old(o.committed), o.committed, id)
          else o.committed == old(o.committed))
      && (if err.None? then o.clock == c + n + 1
          else o.clock > c && (err == Some(NoRow) || o.faults(o.clock - 1)))
  {
    DeletedIsRemoved(o.committed, id);
    err := RunDelete(o, id);
  }
}
