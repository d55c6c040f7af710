/**
  The cache of live cluster managers: a map reconciled against snapshots of the cluster
  table. Every stored manager owns a stop channel; closing a closed channel panics, so
  Close demands an open one. Calls are serial, as the code takes no lock of its own.
 */
module ClusterManagers {
  import opened Sequences
  import opened Wrappers

  const STATUS_NORMAL: int := 0
  const STATUS_MAINTAINING: int := 1

  datatype Cluster = Cluster(name: string, master: string, kubeConfig: string, status: int, deleted: bool)

  /** How building a manager for one row of the snapshot goes. */
  datatype Outcome = Built | ClientError | CacheError

  function Succeeds(outcome: nat -> Outcome): nat -> bool {
    (i: nat) => outcome(i) == Built
  }

  /** One read of the table (or its failure) with the outcome for each row read. */
  datatype Poll = Poll(table: Option<seq<Cluster>>, outcome: nat -> Outcome)

  // ---------------------------------------------------------------------------
  // The snapshot

  /** The rows with normal status that are not deleted. */
  function GetAllNormal(table: seq<Cluster>): (r: seq<Cluster>)
    ensures forall c :: c in r <==> c in table && c.status == STATUS_NORMAL && !c.deleted
  {
    if table == [] then []
    else
      (if table[0].status == STATUS_NORMAL && !table[0].deleted then [table[0]] else [])
      + GetAllNormal(table[1..])
  }

  predicate Normal(c: Cluster) {
    c.status == 0 && !c.deleted
  }

  /** They keep their order. */
  lemma {:induction false} NormalInOrder(table: seq<Cluster>)
    ensures KeptInOrder(GetAllNormal(table), table, Normal)
  {
    NormalIsSelected(table);
    SelectKeeps(table, Normal);
  }

  lemma {:induction false} NormalIsSelected(table: seq<Cluster>)
    ensures GetAllNormal(table) == Select(table, Normal)
  {
    if table != [] { NormalIsSelected(table[1..]); }
  }

  predicate UniqueNames(cs: seq<Cluster>) {
    forall i, j | 0 <= i < j < |cs| :: cs[i].name != cs[j].name
  }

  lemma {:induction false} FilterKeepsUnique(table: seq<Cluster>)
    requires UniqueNames(table)
    ensures UniqueNames(GetAllNormal(table))
  {
    if table != [] {
      FilterKeepsUnique(table[1..]);
      var rest := GetAllNormal(table[1..]);
      forall j | 0 <= j < |rest| ensures rest[j].name != table[0].name {
        var k :| 0 <= k < |table[1..]| && table[1..][k] == rest[j];
        assert table[k + 1] == rest[j];
      }
    }
  }

  function Names(cs: seq<Cluster>): set<string> {
    set i | 0 <= i < |cs| :: cs[i].name
  }

  // ---------------------------------------------------------------------------
  // What a run does to the stored records

  type Records = map<string, Cluster>

  predicate Holds(records: Records, c: Cluster) {
    && c.name in records
    && records[c.name].master == c.master
    && records[c.name].status == c.status
    && records[c.name].kubeConfig == c.kubeConfig
  }

  predicate Changed(records: Records, snapshot: seq<Cluster>) {
    |records| != |snapshot| || exists i | 0 <= i < |snapshot| :: !Holds(records, snapshot[i])
  }

  function Kept(records: Records, snapshot: seq<Cluster>): Records {
    map n | n in records && n in Names(snapshot) :: records[n]
  }

  /** The first `n` rows of the snapshot stored over `records`, where they could be built. */
  function StoreUpTo(records: Records, snapshot: seq<Cluster>, ok: nat -> bool, n: nat): Records
    requires n <= |snapshot|
  {
    if n == 0 then records
    else
      var r := StoreUpTo(records, snapshot, ok, n - 1);
      var c := snapshot[n - 1];
      if c.master != "" && ok(n - 1) then r[c.name := c] else r
  }

  function Reconciled(records: Records, snapshot: seq<Cluster>, ok: nat -> bool): Records {
    if Changed(records, snapshot)
    then StoreUpTo(Kept(records, snapshot), snapshot, ok, |snapshot|)
    else records
  }

  predicate UsableAs(c: Cluster, name: string) {
    c.name == name && c.master != "" && c.status == STATUS_NORMAL && !c.deleted
  }

  ghost predicate Usable(records: Records) {
    forall n | n in records :: UsableAs(records[n], n)
  }

  // ---------------------------------------------------------------------------
  // clusterChanged is exact

  /** The stored names are those of the snapshot, and master, status and kubeconfig are as there. */
  ghost predicate Agrees(records: Records, snapshot: seq<Cluster>) {
    && (forall name :: name in records <==> exists i | 0 <= i < |snapshot| :: snapshot[i].name == name)
    && forall i | 0 <= i < |snapshot| && snapshot[i].name in records ::
         var r := records[snapshot[i].name];
         r.master == snapshot[i].master && r.status == snapshot[i].status && r.kubeConfig == snapshot[i].kubeConfig
  }

  lemma {:induction false} NamesCount(cs: seq<Cluster>)
    requires UniqueNames(cs)
    ensures |Names(cs)| == |cs|
  {
    if cs != [] {
      var n := |cs| - 1;
      NamesCount(cs[..n]);
      NamesSplit(cs);
    }
  }

  lemma NamesSplit(cs: seq<Cluster>)
    requires cs != []
    ensures Names(cs) == Names(cs[..|cs| - 1]) + {cs[|cs| - 1].name}
  {
    var n := |cs| - 1;
    var init := cs[..n];
    forall x | x in Names(cs) ensures x in Names(init) + {cs[n].name} {
      var i :| 0 <= i < |cs| && cs[i].name == x;
      if i < n { assert init[i].name == x; }
    }
    forall x | x in Names(init) ensures x in Names(cs) {
      var i :| 0 <= i < |init| && init[i].name == x;
      assert cs[i].name == x;
    }
  }

  lemma {:induction false} SubsetOfSameSize(a: set<string>, b: set<string>)
    requires a <= b && |a| == |b|
    ensures a == b
  {
    assert |b - a| == |b| - |a|;
  }

  /** With unique names, no change is reported exactly when keys and compared fields agree. */
  lemma {:induction false} ChangedIsExact(records: Records, snapshot: seq<Cluster>)
    requires UniqueNames(snapshot)
    ensures !Changed(records, snapshot) <==> Agrees(records, snapshot)
  {
    NamesCount(snapshot);
    assert forall name :: name in Names(snapshot) <==> exists i | 0 <= i < |snapshot| :: snapshot[i].name == name;
    if !Changed(records, snapshot) {
      assert Names(snapshot) <= records.Keys;
      SubsetOfSameSize(Names(snapshot), records.Keys);
    }
    if Agrees(records, snapshot) {
      assert records.Keys == Names(snapshot);
    }
  }

  // ---------------------------------------------------------------------------
  // When a run reaches agreement

  /** Rows with other names do not touch a key; a row that was built sets it. */
  lemma {:induction false} StoreUpToAt(records: Records, snapshot: seq<Cluster>, ok: nat -> bool, n: nat, i: nat)
    requires UniqueNames(snapshot) && n <= |snapshot| && i < |snapshot|
    ensures var r := StoreUpTo(records, snapshot, ok, n); var name := snapshot[i].name;
      if i < n && snapshot[i].master != "" && ok(i) then name in r && r[name] == snapshot[i]
      else (name in r <==> name in records) && (name in records ==> r[name] == records[name])
  {
    if n > 0 { StoreUpToAt(records, snapshot, ok, n - 1, i); }
  }

  lemma {:induction false} StoreUpToKeys(records: Records, snapshot: seq<Cluster>, ok: nat -> bool, n: nat)
    requires n <= |snapshot| && records.Keys <= Names(snapshot)
    ensures StoreUpTo(records, snapshot, ok, n).Keys <= Names(snapshot)
  {
    if n > 0 {
      StoreUpToKeys(records, snapshot, ok, n - 1);
      assert snapshot[n - 1].name in Names(snapshot);
    }
  }

  /** After any run no stored name is missing from the snapshot. */
  lemma {:induction false} ReconciledWithinSnapshot(records: Records, snapshot: seq<Cluster>, ok: nat -> bool)
    requires UniqueNames(snapshot)
    ensures Reconciled(records, snapshot, ok).Keys <= Names(snapshot)
  {
    if Changed(records, snapshot) {
      StoreUpToKeys(Kept(records, snapshot), snapshot, ok, |snapshot|);
    } else {
      ChangedIsExact(records, snapshot);
    }
  }

  /** What a run that finds a change makes of each name: the row read if it was built, else what was
      stored, and nothing for a name that was not read. */
  lemma ReconciledAt(records: Records, snapshot: seq<Cluster>, ok: nat -> bool, name: string)
    requires UniqueNames(snapshot) && Changed(records, snapshot)
    ensures var after := Reconciled(records, snapshot, ok);
      && (forall i | 0 <= i < |snapshot| && snapshot[i].name == name ::
            if snapshot[i].master != "" && ok(i) then name in after && after[name] == snapshot[i]
            else (name in after <==> name in records) && (name in after ==> after[name] == records[name]))
      && (name in after ==> exists i | 0 <= i < |snapshot| :: snapshot[i].name == name)
  {
    forall i | 0 <= i < |snapshot| && snapshot[i].name == name ensures name in Names(snapshot) {}
    forall i | 0 <= i < |snapshot| && snapshot[i].name == name ensures
      var after := Reconciled(records, snapshot, ok);
      if snapshot[i].master != "" && ok(i) then name in after && after[name] == snapshot[i]
      else (name in after <==> name in records) && (name in after ==> after[name] == records[name])
    {
      StoreUpToAt(Kept(records, snapshot), snapshot, ok, |snapshot|, i);
    }
    ReconciledWithinSnapshot(records, snapshot, ok);
  }

  /** A run leaves nothing to do for the next one on the same snapshot exactly when every
      row has a master and either could be built or was already held. */
  lemma {:induction false} SettledIff(records: Records, snapshot: seq<Cluster>, ok: nat -> bool)
    requires UniqueNames(snapshot) && Usable(records)
    ensures !Changed(Reconciled(records, snapshot, ok), snapshot)
      <==> forall i | 0 <= i < |snapshot| ::
             var c := snapshot[i];
             && c.master != ""
             && (ok(i) || (&& c.name in records && records[c.name].master == c.master
                           && records[c.name].status == c.status && records[c.name].kubeConfig == c.kubeConfig))
  {
    var after := Reconciled(records, snapshot, ok);
    ReconciledWithinSnapshot(records, snapshot, ok);
    ChangedIsExact(after, snapshot);
    ChangedIsExact(records, snapshot);
    if Changed(records, snapshot) {
      forall i | 0 <= i < |snapshot|
        ensures Holds(after, snapshot[i])
          <==> (snapshot[i].master != "" && ok(i)) || Holds(records, snapshot[i])
      {
        StoreUpToAt(Kept(records, snapshot), snapshot, ok, |snapshot|, i);
        assert snapshot[i].name in Names(snapshot);
      }
    }
    forall i | 0 <= i < |snapshot| && Holds(after, snapshot[i]) && !(snapshot[i].master != "" && ok(i))
      ensures snapshot[i].master != "" {}
    if forall i | 0 <= i < |snapshot| :: Holds(after, snapshot[i]) {
      assert Names(snapshot) <= after.Keys;
    }
  }

  // ---------------------------------------------------------------------------
  // Managers and their channels

  class StopChannel {
    var closed: bool
    /** How often the channel has been closed. */
    ghost var closings: nat

    constructor ()
      ensures !closed && closings == 0
    {
      closed, closings := false, 0;
    }

    method Close()
      requires !closed
      modifies this
      ensures closed && closings == old(closings) + 1
    {
      closed, closings := true, closings + 1;
    }
  }

  class ClusterManager {
    const cluster: Cluster
    const stopChan: StopChannel

    constructor (cluster: Cluster, stopChan: StopChannel)
      ensures this.cluster == cluster && this.stopChan == stopChan
    {
      this.cluster, this.stopChan := cluster, stopChan;
    }

    method Close()
      requires !stopChan.closed
      modifies stopChan
      ensures stopChan.closed && stopChan.closings == old(stopChan.closings) + 1
    {
      stopChan.Close();
    }
  }

  /** Creates the channel first; when a later step fails the channel is dropped unclosed. */
  method BuildCacheController(fails: bool) returns (stop: Option<StopChannel>)
    ensures stop.None? <==> fails
    ensures stop.Some? ==> fresh(stop.value) && !stop.value.closed && stop.value.closings == 0
  {
    var chan := new StopChannel();
    stop := if fails then None else Some(chan);
  }

  datatype Lookup = Found(manager: ClusterManager) | NotExist | Maintaining

  /** Each manager in the map is either new, and then a row of its name was built, or it was
      there before under the same name, and then no row of its name was. */
  ghost predicate KeptOrNew(now: map<string, ClusterManager>, was: map<string, ClusterManager>,
                            wasStored: set<ClusterManager>, snapshot: seq<Cluster>, outcome: nat -> Outcome, n: nat)
    requires n <= |snapshot|
  {
    forall name | name in now ::
      if now[name] in wasStored then name in was && now[name] == was[name] && !BuiltBefore(name, snapshot, outcome, n)
      else BuiltBefore(name, snapshot, outcome, n)
  }

  ghost predicate BuiltBefore(name: string, snapshot: seq<Cluster>, outcome: nat -> Outcome, n: nat)
    requires n <= |snapshot|
  {
    exists i | 0 <= i < n :: snapshot[i].name == name && snapshot[i].master != "" && outcome(i) == Built
  }

  /** The map after the managers built for the first rows have been stored one by one. */
  ghost function Layered(was: map<string, ClusterManager>, snapshot: seq<Cluster>,
                         built: seq<Option<ClusterManager>>): map<string, ClusterManager>
    requires |built| <= |snapshot|
  {
    if built == [] then was
    else
      var n := |built| - 1;
      var r := Layered(was, snapshot, built[..n]);
      if built[n].Some? then r[snapshot[n].name := built[n].value] else r
  }

  /** A manager exists for exactly the rows that could be built, and it is not an old one. */
  ghost predicate Follows(built: seq<Option<ClusterManager>>, snapshot: seq<Cluster>, outcome: nat -> Outcome,
                          wasStored: set<ClusterManager>)
    requires |built| <= |snapshot|
  {
    forall k | 0 <= k < |built| ::
      && (built[k].Some? <==> snapshot[k].master != "" && outcome(k) == Built)
      && (built[k].Some? ==> built[k].value !in wasStored && built[k].value.cluster == snapshot[k])
  }

  function RecordsOf(managers: map<string, ClusterManager>): Records {
    map n | n in managers :: managers[n].cluster
  }

  lemma {:induction false} LayeredMeans(was: map<string, ClusterManager>, wasStored: set<ClusterManager>,
                                        snapshot: seq<Cluster>, outcome: nat -> Outcome,
                                        built: seq<Option<ClusterManager>>)
    requires |built| <= |snapshot| && Follows(built, snapshot, outcome, wasStored)
    requires forall name | name in was :: was[name] in wasStored
    ensures KeptOrNew(Layered(was, snapshot, built), was, wasStored, snapshot, outcome, |built|)
    ensures RecordsOf(Layered(was, snapshot, built))
         == StoreUpTo(RecordsOf(was), snapshot, Succeeds(outcome), |built|)
  {
    if built != [] {
      var n := |built| - 1;
      LayeredMeans(was, wasStored, snapshot, outcome, built[..n]);
      var r, m := Layered(was, snapshot, built[..n]), built[n];
      assert m.Some? ==>
        RecordsOf(r[snapshot[n].name := m.value]) == RecordsOf(r)[snapshot[n].name := m.value.cluster];
      forall name
        ensures BuiltBefore(name, snapshot, outcome, n + 1)
          <==> BuiltBefore(name, snapshot, outcome, n) || (m.Some? && name == snapshot[n].name) {}
    }
  }

  /** One more row of the snapshot: stored if it was built, else nothing changes. */
  lemma OneMore(was: map<string, ClusterManager>, wasStored: set<ClusterManager>, snapshot: seq<Cluster>,
                outcome: nat -> Outcome, built: seq<Option<ClusterManager>>, m: Option<ClusterManager>)
    requires |built| < |snapshot| && Follows(built, snapshot, outcome, wasStored)
    requires m.Some? <==> snapshot[|built|].master != "" && outcome(|built|) == Built
    requires m.Some? ==> m.value !in wasStored && m.value.cluster == snapshot[|built|]
    ensures Follows(built + [m], snapshot, outcome, wasStored)
    ensures var r := Layered(was, snapshot, built);
      Layered(was, snapshot, built + [m]) == if m.Some? then r[snapshot[|built|].name := m.value] else r
  {
    assert (built + [m])[..|built|] == built;
  }

  class ManagerSet {
    var managers: map<string, ClusterManager>
    /** Every manager that was ever stored. */
    ghost var stored: set<ClusterManager>

    ghost function Channels(): set<StopChannel>
      reads this
    {
      set m | m in stored :: m.stopChan
    }

    function Records(): Records
      reads this
    {
      RecordsOf(managers)
    }

    /** Each stored manager is either in the map with its channel never closed, or out of
        the map with its channel closed exactly once. */
    ghost predicate Valid()
      reads this, Channels()
    {
      && (forall n | n in managers :: managers[n] in stored && UsableAs(managers[n].cluster, n))
      && (forall m, m' | m in stored && m' in stored && m != m' :: m.stopChan != m'.stopChan)
      && (forall m | m in stored ::
            m.stopChan.closed == !(m.cluster.name in managers && managers[m.cluster.name] == m))
      && (forall m | m in stored :: m.stopChan.closings == if m.stopChan.closed then 1 else 0)
    }

    constructor ()
      ensures Valid() && managers == map[] && stored == {}
    {
      managers, stored := map[], {};
    }

    method Drop(key: string)
      requires Valid() && key in managers
      modifies this`managers, managers[key].stopChan
      ensures Valid() && managers == old(managers) - {key}
    {
      var manager := managers[key];
      manager.Close();
      managers := managers - {key};
    }

    /** One step of the range: the manager goes unless the snapshot names it. */
    method DropUnless(key: string, names: set<string>)
      requires Valid() && key in managers
      modifies this`managers, Channels()
      ensures Valid() && managers == if key in names then old(managers) else old(managers) - {key}
    {
      if key !in names { Drop(key); }
    }

    /** Closes and removes the managers whose cluster is not in the snapshot. */
    method ShouldRemoveClusters(snapshot: seq<Cluster>)
      requires Valid()
      modifies this`managers, Channels()
      ensures Valid()
      ensures managers == map n | n in old(managers) && n in Names(snapshot) :: old(managers)[n]
      ensures stored == old(stored)
    {
      var names := Names(snapshot);
      var todo := managers.Keys;
      while todo != {}
        invariant Valid() && todo <= old(managers).Keys && stored == old(stored)
        invariant forall n :: n in managers <==> n in old(managers) && (n in todo || n in names)
        invariant forall n | n in managers :: managers[n] == old(managers)[n]
        decreases todo
      {
        var key :| key in todo;
        DropUnless(key, names);
        todo := todo - {key};
      }
    }

    /** Compares the map with the snapshot as the periodic loop does. */
    method ClusterChanged(snapshot: seq<Cluster>) returns (changed: bool)
      ensures changed == Changed(Records(), snapshot)
    {
      assert Records().Keys == managers.Keys;
      if |managers| != |snapshot| { return true; }
      for i := 0 to |snapshot|
        invariant forall k | 0 <= k < i :: Holds(Records(), snapshot[k])
      {
        var cluster := snapshot[i];
        if cluster.name !in managers { return true; }
        var manager := managers[cluster.name];
        if manager.cluster.master != cluster.master { return true; }
        if manager.cluster.status != cluster.status { return true; }
        if manager.cluster.kubeConfig != cluster.kubeConfig { return true; }
      }
      return false;
    }

    /** Stores a new manager, closing the one it replaces. */
    method Store(manager: ClusterManager)
      requires Valid()
      requires manager !in stored && manager.stopChan !in Channels()
      requires !manager.stopChan.closed && manager.stopChan.closings == 0
      requires UsableAs(manager.cluster, manager.cluster.name)
      modifies this, Channels()
      ensures Valid() && stored == old(stored) + {manager}
      ensures managers == old(managers)[manager.cluster.name := manager]
    {
      var name := manager.cluster.name;
      if name in managers {
        var replaced := managers[name];
        replaced.Close();
      }
      managers := managers[name := manager];
      stored := stored + {manager};
    }

    /** Builds and stores a manager for one row of the snapshot if that is possible. */
    method BuildOne(cluster: Cluster, outcome: Outcome) returns (ghost manager: Option<ClusterManager>)
      requires Valid() && cluster.status == STATUS_NORMAL && !cluster.deleted
      modifies this, Channels()
      ensures Valid() && (manager.Some? <==> cluster.master != "" && outcome == Built)
      ensures manager.None? ==> managers == old(managers) && stored == old(stored)
      ensures manager.Some? ==> var m := manager.value;
        && fresh(m) && fresh(m.stopChan) && m.cluster == cluster
        && managers == old(managers)[cluster.name := m] && stored == old(stored) + {m}
    {
      manager := None;
      if cluster.master == "" { return; }
      if outcome == ClientError { return; }
      var stop := BuildCacheController(outcome == CacheError);
      if stop.None? { return; }
      var clusterManager := new ClusterManager(cluster, stop.value);
      Store(clusterManager);
      manager := Some(clusterManager);
    }

    /** Builds a manager for each row of the snapshot that allows it. */
    method BuildManagers(snapshot: seq<Cluster>, outcome: nat -> Outcome)
      returns (ghost built: seq<Option<ClusterManager>>)
      requires Valid()
      requires forall c | c in snapshot :: c.status == STATUS_NORMAL && !c.deleted
      modifies this, Channels()
      ensures Valid() && old(stored) <= stored && fresh(stored - old(stored)) && fresh(Channels() - old(Channels()))
      ensures |built| == |snapshot| && Follows(built, snapshot, outcome, old(stored))
      ensures managers == Layered(old(managers), snapshot, built)
    {
      built := [];
      for i := 0 to |snapshot|
        invariant Valid() && old(stored) <= stored
        invariant fresh(stored - old(stored)) && fresh(Channels() - old(Channels()))
        invariant |built| == i && Follows(built, snapshot, outcome, old(stored))
        invariant managers == Layered(old(managers), snapshot, built)
      {
        ghost var m := BuildOne(snapshot[i], outcome(i));
        OneMore(old(managers), old(stored), snapshot, outcome, built, m);
        built := built + [m];
      }
    }

    /** Removes what is gone and builds what can be built. */
    method Rebuild(snapshot: seq<Cluster>, outcome: nat -> Outcome)
      requires Valid()
      requires forall c | c in snapshot :: c.status == STATUS_NORMAL && !c.deleted
      modifies this, Channels()
      ensures Valid() && old(stored) <= stored && fresh(stored - old(stored)) && fresh(Channels() - old(Channels()))
      ensures Records() == StoreUpTo(Kept(old(Records()), snapshot), snapshot, Succeeds(outcome), |snapshot|)
      ensures KeptOrNew(managers, old(managers), old(stored), snapshot, outcome, |snapshot|)
    {
      ShouldRemoveClusters(snapshot);
      assert Records() == Kept(old(Records()), snapshot);
      ghost var kept := managers;
      ghost var built := BuildManagers(snapshot, outcome);
      LayeredMeans(kept, old(stored), snapshot, outcome, built);
    }

    /** One run of the reconciliation. */
    method BuildApiserverClient(poll: Poll)
      requires Valid()
      modifies this, Channels()
      ensures Valid() && old(stored) <= stored && fresh(stored - old(stored)) && fresh(Channels() - old(Channels()))
      ensures poll.table.None? ==> managers == old(managers) && stored == old(stored)
      ensures poll.table.Some? ==>
        var snapshot := GetAllNormal(poll.table.value);
        && Records() == Reconciled(old(Records()), snapshot, Succeeds(poll.outcome))
        && (!Changed(old(Records()), snapshot) ==> managers == old(managers) && stored == old(stored))
        && (Changed(old(Records()), snapshot) ==>
              KeptOrNew(managers, old(managers), old(stored), snapshot, poll.outcome, |snapshot|))
    {
      if poll.table.None? { return; }
      var snapshot := GetAllNormal(poll.table.value);
      var changed := ClusterChanged(snapshot);
      if changed { Rebuild(snapshot, poll.outcome); }
    }

    /** Looks a manager up, reconciling once when it is missing. As every stored record has
        normal status, the maintenance answer is never given. */
    method Manager(name: string, poll: Poll) returns (r: Lookup)
      requires Valid()
      modifies this, Channels()
      ensures Valid() && old(stored) <= stored && fresh(stored - old(stored)) && fresh(Channels() - old(Channels()))
      ensures r == if name in managers then Found(managers[name]) else NotExist
      ensures name in old(managers) ==> managers == old(managers) && stored == old(stored)
      ensures name !in old(managers) && poll.table.None? ==> managers == old(managers) && stored == old(stored)
      ensures name !in old(managers) && poll.table.Some? ==>
        Records() == Reconciled(old(Records()), GetAllNormal(poll.table.value), Succeeds(poll.outcome))
      ensures r.Found? ==> !r.manager.stopChan.closed && r.manager.cluster.name == name
    {
      if name !in managers {
        BuildApiserverClient(poll);
        if name !in managers { return NotExist; }
      }
      var manager := managers[name];
      assert Records()[name] == manager.cluster;
      if manager.cluster.status == STATUS_MAINTAINING { return Maintaining; }
      return Found(manager);
    }
  }

  // ---------------------------------------------------------------------------
  // Whole runs

  datatype Call = Reconcile(poll: Poll) | Ask(name: string, poll: Poll)

  /** After any serial run of calls, with any tables and any failures, what is in the map is usable
      under its name and open, and all else that was ever stored was closed once. */
  method Serve(calls: seq<Call>) returns (cache: ManagerSet)
    ensures cache.Valid()
    ensures forall n | n in cache.managers :: var m := cache.managers[n];
      && m.cluster.name == n && m.cluster.master != "" && m.cluster.status == 0 && !m.cluster.deleted
      && !m.stopChan.closed && m.stopChan.closings == 0
    ensures forall m | m in cache.stored ::
      m in cache.managers.Values || (m.stopChan.closed && m.stopChan.closings == 1)
  {
    cache := new ManagerSet();
    for i := 0 to |calls|
      invariant cache.Valid() && fresh(cache) && fresh(cache.Channels())
    {
      match calls[i]
      case Reconcile(poll) => cache.BuildApiserverClient(poll);
      case Ask(name, poll) =>
        var answer := cache.Manager(name, poll);
    }
  }
}
