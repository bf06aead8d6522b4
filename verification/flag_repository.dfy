/** The flags and flag_dependencies tables and the repository operations over them.
    A table is a map from serial id to row plus the set of dependency edges; the
    serial counter is kept so that ids are never reused. */
module FlagRepository {
  import opened Results
  import opened Text
  import opened Sequences
  import opened FlagEntity
  import opened Graph

  datatype RepositoryError = NotFound | AlreadyExists

  /** The stored columns of one flags row (timestamps are not modelled). */
  datatype FlagRow = FlagRow(name: string, status: FlagStatus)

  datatype FlagTable = FlagTable(rows: map<int, FlagRow>, edges: set<Edge>, nextId: int)

  /** Serial ids below the counter, and the unique constraint on name. */
  predicate WellFormed(t: FlagTable) {
    && t.nextId >= 1
    && (forall id :: id in t.rows ==> 0 < id < t.nextId)
    && (forall a, b :: a in t.rows && b in t.rows && t.rows[a].name == t.rows[b].name ==> a == b)
  }

  type FlagDb = t: FlagTable | WellFormed(t) witness FlagTable(map[], {}, 1)

  predicate NameTaken(db: FlagTable, name: string) {
    exists id :: id in db.rows && db.rows[id].name == name
  }

  /** The ids of the rows whose status is enabled. */
  function EnabledIds(db: FlagTable): (r: set<int>)
    ensures forall id :: id in r <==> id in db.rows && db.rows[id].status == Enabled
  {
    set id | id in db.rows && db.rows[id].status == Enabled
  }

  /** Inserts a row under the next serial id, unless the name is taken. */
  function CreateFlag(db: FlagDb, name: string, status: FlagStatus): (r: Result<(int, FlagDb), RepositoryError>)
    ensures r.Failure? <==> NameTaken(db, name)
    ensures r.Failure? ==> r.error == AlreadyExists
    ensures r.Success? ==>
      && r.value.0 > 0
      && r.value.0 !in db.rows
      && r.value.1.rows.Keys == db.rows.Keys + {r.value.0}
      && r.value.1.rows[r.value.0] == FlagRow(name, status)
      && (forall k :: k in db.rows ==> r.value.1.rows[k] == db.rows[k])
      && r.value.1.edges == db.edges
  {
    if NameTaken(db, name) then Failure(AlreadyExists)
    else
      var id := db.nextId;
      var t := FlagTable(db.rows[id := FlagRow(name, status)], db.edges, id + 1);
      Success((id, t))
  }

  /** The set behind GetDependencies: what flagId depends on directly. */
  function PrerequisiteIds(edges: set<Edge>, flagId: int): (s: set<int>)
    ensures forall p :: p in s <==> Edge(flagId, p) in edges
  {
    var s := set e | e in edges && e.flagId == flagId :: e.dependsOnId;
    assert forall p :: Edge(flagId, p) in edges ==> p in s by {
      forall p | Edge(flagId, p) in edges
        ensures p in s
      {
        var e := Edge(flagId, p);
        assert e in edges && e.flagId == flagId;
      }
    }
    s
  }

  /** The set behind GetDependents: what depends directly on dependsOnId. */
  function DependentIds(edges: set<Edge>, dependsOnId: int): (s: set<int>)
    ensures forall d :: d in s <==> Edge(d, dependsOnId) in edges
  {
    var s := set e | e in edges && e.dependsOnId == dependsOnId :: e.flagId;
    assert forall d :: Edge(d, dependsOnId) in edges ==> d in s by {
      forall d | Edge(d, dependsOnId) in edges
        ensures d in s
      {
        var e := Edge(d, dependsOnId);
        assert e in edges && e.dependsOnId == dependsOnId;
      }
    }
    s
  }

  /** The direct dependencies of a flag, ascending. */
  function GetDependencies(db: FlagTable, flagId: int): (r: seq<int>)
    ensures Increasing(r)
    ensures forall p :: p in r <==> Edge(flagId, p) in db.edges
  {
    SortedElements(PrerequisiteIds(db.edges, flagId))
  }

  /** The direct dependents of a flag, ascending. */
  function GetDependents(db: FlagTable, dependsOnId: int): (r: seq<int>)
    ensures Increasing(r)
    ensures forall d :: d in r <==> Edge(d, dependsOnId) in db.edges
  {
    SortedElements(DependentIds(db.edges, dependsOnId))
  }

  /** The two lookups are mirror images of each other. */
  lemma DependentsMirrorDependencies(db: FlagTable, x: int, y: int)
    ensures y in GetDependents(db, x) <==> x in GetDependencies(db, y)
  {
  }

  /** The stored flag with its dependencies loaded. */
  function StoredFlag(db: FlagTable, id: int): (f: Flag)
    requires id in db.rows
    ensures f.id == id && f.name == db.rows[id].name && f.status == db.rows[id].status
    ensures Increasing(f.dependencies)
    ensures forall p :: p in f.dependencies <==> Edge(id, p) in db.edges
  {
    Flag(id, db.rows[id].name, db.rows[id].status, GetDependencies(db, id))
  }

  function GetFlagByID(db: FlagTable, id: int): (r: Result<Flag, RepositoryError>)
    ensures r.Failure? <==> id !in db.rows
    ensures r.Failure? ==> r.error == NotFound
    ensures r.Success? ==>
      && r.value.id == id
      && r.value.name == db.rows[id].name
      && r.value.status == db.rows[id].status
      && Increasing(r.value.dependencies)
      && (forall p :: p in r.value.dependencies <==> Edge(id, p) in db.edges)
  {
    if id in db.rows then Success(StoredFlag(db, id)) else Failure(NotFound)
  }

  lemma NameTakenHasId(db: FlagTable, name: string)
    requires NameTaken(db, name)
    ensures NonEmpty(set id | id in db.rows && db.rows[id].name == name)
  {
    var w :| w in db.rows && db.rows[w].name == name;
    var ids := set id | id in db.rows && db.rows[id].name == name;
    assert w in ids;
    assert NonEmpty(ids);
  }

  function GetFlagByName(db: FlagDb, name: string): (r: Result<Flag, RepositoryError>)
    ensures r.Failure? <==> !NameTaken(db, name)
    ensures r.Failure? ==> r.error == NotFound
    ensures r.Success? ==>
      && r.value.name == name
      && r.value.id in db.rows
      && (forall k :: k in db.rows && db.rows[k].name == name ==> k == r.value.id)
      && GetFlagByID(db, r.value.id) == Success(r.value)
  {
    if NameTaken(db, name) then
      NameTakenHasId(db, name);
      var id := Min(set id | id in db.rows && db.rows[id].name == name);
      Success(StoredFlag(db, id))
    else Failure(NotFound)
  }

  /** ORDER BY name, with names compared code point by code point. */
  predicate SortedByName(fs: seq<Flag>) {
    forall i, j :: 0 <= i < j < |fs| ==> LexLe(fs[i].name, fs[j].name)
  }

  function InsertByName(f: Flag, fs: seq<Flag>): (r: seq<Flag>)
    requires SortedByName(fs)
    ensures SortedByName(r)
    ensures |r| == |fs| + 1
    ensures multiset(r) == multiset(fs) + multiset{f}
    ensures forall i :: 0 <= i < |r| ==> r[i] == f || r[i] in fs
    decreases |fs|
  {
    if |fs| == 0 then [f]
    else if LexLe(f.name, fs[0].name) then
      assert forall j :: 0 <= j < |fs| ==> LexLe(f.name, fs[j].name) by {
        forall j | 0 <= j < |fs|
          ensures LexLe(f.name, fs[j].name)
        {
          if j > 0 {
            LexLeTransitive(f.name, fs[0].name, fs[j].name);
          }
        }
      }
      [f] + fs
    else
      LexLeTotal(f.name, fs[0].name);
      var rest := InsertByName(f, fs[1..]);
      assert fs == [fs[0]] + fs[1..];
      assert forall j :: 0 <= j < |rest| ==> LexLe(fs[0].name, rest[j].name) by {
        forall j | 0 <= j < |rest|
          ensures LexLe(fs[0].name, rest[j].name)
        {
          if rest[j] != f {
            var k :| 0 <= k < |fs[1..]| && fs[1..][k] == rest[j];
            assert fs[k + 1] == rest[j];
          }
        }
      }
      [fs[0]] + rest
  }

  function SortByName(fs: seq<Flag>): (r: seq<Flag>)
    ensures SortedByName(r)
    ensures |r| == |fs|
    ensures multiset(r) == multiset(fs)
    decreases |fs|
  {
    if |fs| == 0 then []
    else
      assert fs == [fs[0]] + fs[1..];
      InsertByName(fs[0], SortByName(fs[1..]))
  }

  /** A flag as ListFlags returns it: the row without its dependencies. */
  function RowFlag(db: FlagTable, id: int): Flag
    requires id in db.rows
  {
    Flag(id, db.rows[id].name, db.rows[id].status, [])
  }

  function RowFlags(db: FlagTable, ids: seq<int>): (r: seq<Flag>)
    requires forall i :: 0 <= i < |ids| ==> ids[i] in db.rows
    ensures |r| == |ids|
    ensures forall i :: 0 <= i < |r| ==> r[i] == RowFlag(db, ids[i])
  {
    seq(|ids|, i requires 0 <= i < |ids| => RowFlag(db, ids[i]))
  }

  lemma ListedRows(db: FlagTable, ids: seq<int>, r: seq<Flag>)
    requires forall id :: id in ids <==> id in db.rows
    requires multiset(r) == multiset(RowFlags(db, ids))
    ensures forall i :: 0 <= i < |r| ==> r[i].id in db.rows && r[i] == RowFlag(db, r[i].id)
    ensures forall id :: id in db.rows ==> exists i :: 0 <= i < |r| && r[i].id == id
  {
    var fs := RowFlags(db, ids);
    forall i | 0 <= i < |r|
      ensures r[i].id in db.rows && r[i] == RowFlag(db, r[i].id)
    {
      assert r[i] in multiset(fs);
      var k :| 0 <= k < |fs| && fs[k] == r[i];
    }
    forall id | id in db.rows
      ensures exists i :: 0 <= i < |r| && r[i].id == id
    {
      var k :| 0 <= k < |ids| && ids[k] == id;
      var f := fs[k];
      assert f in multiset(r);
      var i :| 0 <= i < |r| && r[i] == f;
      assert r[i].id == id;
    }
  }

  /** Every row once, ordered by name, dependencies not loaded. */
  function ListFlags(db: FlagTable): (r: seq<Flag>)
    ensures SortedByName(r)
    ensures |r| == |db.rows|
    ensures forall i :: 0 <= i < |r| ==> r[i].id in db.rows && r[i] == RowFlag(db, r[i].id)
    ensures forall id :: id in db.rows ==> exists i :: 0 <= i < |r| && r[i].id == id
  {
    var ids := SortedElements(db.rows.Keys);
    var r := SortByName(RowFlags(db, ids));
    ListedRows(db, ids, r);
    r
  }

  /** Loads each listed flag's dependencies. */
  function WithDependencies(db: FlagTable, fs: seq<Flag>): (r: seq<Flag>)
    requires forall i :: 0 <= i < |fs| ==> fs[i].id in db.rows
    ensures |r| == |fs|
    ensures forall i :: 0 <= i < |r| ==> r[i] == StoredFlag(db, fs[i].id)
  {
    seq(|fs|, i requires 0 <= i < |fs| => StoredFlag(db, fs[i].id))
  }

  lemma WithDependenciesKeepsOrder(db: FlagTable, fs: seq<Flag>)
    requires forall i :: 0 <= i < |fs| ==> fs[i].id in db.rows && fs[i] == RowFlag(db, fs[i].id)
    requires SortedByName(fs)
    requires forall id :: id in db.rows ==> exists i :: 0 <= i < |fs| && fs[i].id == id
    ensures SortedByName(WithDependencies(db, fs))
    ensures forall id :: id in db.rows ==> exists i :: 0 <= i < |fs| && WithDependencies(db, fs)[i].id == id
  {
    var r := WithDependencies(db, fs);
    assert forall i :: 0 <= i < |r| ==> r[i].name == fs[i].name;
    forall id | id in db.rows
      ensures exists i :: 0 <= i < |fs| && r[i].id == id
    {
      var i :| 0 <= i < |fs| && fs[i].id == id;
      assert r[i].id == id;
    }
  }

  /** ListFlags with each flag's dependencies loaded. */
  function GetFlagsWithDependencies(db: FlagTable): (r: seq<Flag>)
    ensures SortedByName(r)
    ensures |r| == |db.rows|
    ensures forall i :: 0 <= i < |r| ==> r[i].id in db.rows && GetFlagByID(db, r[i].id) == Success(r[i])
    ensures forall id :: id in db.rows ==> exists i :: 0 <= i < |r| && r[i].id == id
  {
    var fs := ListFlags(db);
    WithDependenciesKeepsOrder(db, fs);
    WithDependencies(db, fs)
  }

  /** The status change behind UpdateFlagStatus, for a row known to exist. */
  function SetStatus(db: FlagDb, id: int, status: FlagStatus): (r: FlagDb)
    requires id in db.rows
    ensures r.rows.Keys == db.rows.Keys
    ensures r.rows[id].name == db.rows[id].name && r.rows[id].status == status
    ensures forall k :: k in db.rows && k != id ==> r.rows[k] == db.rows[k]
    ensures r.edges == db.edges && r.nextId == db.nextId
  {
    var t := db.(rows := db.rows[id := db.rows[id].(status := status)]);
    assert forall a, b :: a in t.rows && b in t.rows && t.rows[a].name == t.rows[b].name ==> a == b by {
      forall a, b | a in t.rows && b in t.rows && t.rows[a].name == t.rows[b].name
        ensures a == b
      {
        assert db.rows[a].name == db.rows[b].name;
      }
    }
    t
  }

  /** NotFound when no row has the id; otherwise only that row's status changes. */
  function UpdateFlagStatus(db: FlagDb, id: int, status: FlagStatus): (r: Result<FlagDb, RepositoryError>)
    ensures r.Failure? <==> id !in db.rows
    ensures r.Failure? ==> r.error == NotFound
    ensures r.Success? ==>
      && r.value.rows.Keys == db.rows.Keys
      && r.value.rows[id] == FlagRow(db.rows[id].name, status)
      && (forall k :: k in db.rows && k != id ==> r.value.rows[k] == db.rows[k])
      && r.value.edges == db.edges
  {
    if id in db.rows then Success(SetStatus(db, id, status)) else Failure(NotFound)
  }

  /** Inserts an edge; an edge already present is left as it is. Neither end is
      checked to exist. */
  function AddDependency(db: FlagDb, flagId: int, dependsOnId: int): (r: FlagDb)
    ensures r.rows == db.rows && r.nextId == db.nextId
    ensures Edge(flagId, dependsOnId) in r.edges
    ensures forall e :: e in r.edges <==> e in db.edges || e == Edge(flagId, dependsOnId)
  {
    db.(edges := db.edges + {Edge(flagId, dependsOnId)})
  }

  lemma AddDependencyIdempotent(db: FlagDb, flagId: int, dependsOnId: int)
    ensures AddDependency(AddDependency(db, flagId, dependsOnId), flagId, dependsOnId)
         == AddDependency(db, flagId, dependsOnId)
  {
    var once := AddDependency(db, flagId, dependsOnId);
    var twice := AddDependency(once, flagId, dependsOnId);
    assert forall e :: e in twice.edges <==> e in once.edges;
  }

  /** After AddDependency both lookups see the new edge. */
  lemma AddDependencyVisible(db: FlagDb, flagId: int, dependsOnId: int)
    ensures dependsOnId in GetDependencies(AddDependency(db, flagId, dependsOnId), flagId)
    ensures flagId in GetDependents(AddDependency(db, flagId, dependsOnId), dependsOnId)
  {
  }

  /** A created flag can be read back by id and by name. */
  lemma CreateThenGet(db: FlagDb, name: string, status: FlagStatus)
    requires CreateFlag(db, name, status).Success?
    ensures var (id, db') := CreateFlag(db, name, status).value;
      && GetFlagByID(db', id).Success?
      && GetFlagByID(db', id).value.name == name
      && GetFlagByID(db', id).value.status == status
      && GetFlagByName(db', name) == GetFlagByID(db', id)
  {
    var (id, db') := CreateFlag(db, name, status).value;
    assert NameTaken(db', name) by {
      assert id in db'.rows && db'.rows[id].name == name;
    }
  }

  /** A second create with the same name fails. */
  lemma CreateTwiceFails(db: FlagDb, name: string, s1: FlagStatus, s2: FlagStatus)
    requires CreateFlag(db, name, s1).Success?
    ensures CreateFlag(CreateFlag(db, name, s1).value.1, name, s2) == Failure(AlreadyExists)
  {
    var (id, db') := CreateFlag(db, name, s1).value;
    assert id in db'.rows && db'.rows[id].name == name;
  }

  /** A status update is visible to GetFlagByID and changes nothing else it reports. */
  lemma UpdateThenGet(db: FlagDb, id: int, status: FlagStatus)
    requires id in db.rows
    ensures GetFlagByID(UpdateFlagStatus(db, id, status).value, id)
         == Success(GetFlagByID(db, id).value.(status := status))
  {
  }

  /** The cycle check: is the proposed owner flagId reachable from some proposed
      dependency within the search depth? */
  function HasCircularDependency(db: FlagTable, flagId: int, dependencyIds: seq<int>): (r: bool)
    ensures r <==> exists i :: 0 <= i < |dependencyIds| && ReachableWithin(db.edges, dependencyIds[i], flagId, MaxDepth)
    decreases |dependencyIds|
  {
    if |dependencyIds| == 0 then false
    else
      FoundWithinExactly(db.edges, dependencyIds[0], flagId, MaxDepth);
      SomeReachesSplit(db.edges, dependencyIds, flagId);
      FoundWithin(db.edges, {dependencyIds[0]}, flagId, MaxDepth) || HasCircularDependency(db, flagId, dependencyIds[1..])
  }

  /** Some id of a non-empty list reaches the target exactly when its head or some
      id of its tail does. */
  lemma SomeReachesSplit(edges: set<Edge>, ids: seq<int>, target: int)
    requires |ids| > 0
    ensures (exists i :: 0 <= i < |ids| && ReachableWithin(edges, ids[i], target, MaxDepth)) <==>
      ReachableWithin(edges, ids[0], target, MaxDepth) ||
      (exists i :: 0 <= i < |ids[1..]| && ReachableWithin(edges, ids[1..][i], target, MaxDepth))
  {
    var rest := ids[1..];
    if exists i :: 0 <= i < |rest| && ReachableWithin(edges, rest[i], target, MaxDepth) {
      var i :| 0 <= i < |rest| && ReachableWithin(edges, rest[i], target, MaxDepth);
      var j := i + 1;
      assert ids[j] == rest[i];
    }
    if exists i :: 0 <= i < |ids| && ReachableWithin(edges, ids[i], target, MaxDepth) {
      var i :| 0 <= i < |ids| && ReachableWithin(edges, ids[i], target, MaxDepth);
      if i > 0 {
        var j := i - 1;
        assert rest[j] == ids[i];
      }
    }
  }

  /** What the check reports is a real path: adding the edges would close a cycle. */
  lemma HasCircularDependencySound(db: FlagTable, flagId: int, dependencyIds: seq<int>)
    requires HasCircularDependency(db, flagId, dependencyIds)
    ensures exists i :: 0 <= i < |dependencyIds| && Reachable(db.edges, dependencyIds[i], flagId)
  {
    var i :| 0 <= i < |dependencyIds| && ReachableWithin(db.edges, dependencyIds[i], flagId, MaxDepth);
    var n: nat :| 1 <= n <= MaxDepth && ReachesIn(db.edges, dependencyIds[i], flagId, n);
    assert Reachable(db.edges, dependencyIds[i], flagId);
  }

  /** The check cannot see a flag that is only reachable from itself along zero
      edges or no edges at all: the id 0 the service passes for a flag not yet
      created has no row, and edges between existing rows never lead to it. */
  lemma NoCycleThroughUnusedId(db: FlagDb, dependencyIds: seq<int>)
    requires forall e :: e in db.edges ==> e.dependsOnId in db.rows
    ensures !HasCircularDependency(db, 0, dependencyIds)
  {
    forall i | 0 <= i < |dependencyIds|
      ensures !ReachableWithin(db.edges, dependencyIds[i], 0, MaxDepth)
    {
      NeverFoundWithoutIncomingEdge(db.edges, {dependencyIds[i]}, 0, MaxDepth);
      FoundWithinExactly(db.edges, dependencyIds[i], 0, MaxDepth);
    }
  }

  lemma {:induction false} ReachesInMonotone(small: set<Edge>, large: set<Edge>, a: int, b: int, n: nat)
    requires small <= large
    requires ReachesIn(small, a, b, n)
    ensures ReachesIn(large, a, b, n)
    decreases n
  {
    if n > 0 {
      var c :| Edge(a, c) in small && ReachesIn(small, c, b, n - 1);
      ReachesInMonotone(small, large, c, b, n - 1);
    }
  }

  /** An edge back from b to a closes a cycle whenever a already reaches b. */
  lemma ClosingEdgeMakesCycle(edges: set<Edge>, after: set<Edge>, a: int, b: int, n: nat)
    requires edges <= after && Edge(b, a) in after
    requires ReachesIn(edges, a, b, n)
    ensures !Acyclic(after)
  {
    ReachesInMonotone(edges, after, a, b, n);
    assert ReachesIn(after, a, a, 0);
    var one: nat := 1;
    assert ReachesIn(after, b, a, one);
    ReachesInAppend(after, b, a, b, one, n);
    var m: nat := one + n;
    assert ReachesIn(after, b, b, m);
    assert Reachable(after, b, b);
  }

  /** On a chain of eleven edges 1 -> 2 -> ... -> 12 the check lets 12 depend on 1,
      and the resulting edge set is cyclic. */
  lemma CycleCheckMissesLongChain(db: FlagDb)
    requires db.edges == Chain(11)
    ensures !HasCircularDependency(db, 12, [1])
    ensures !Acyclic(AddDependency(db, 12, 1).edges)
  {
    ElevenEdgeChainEscapesSearch();
    var n: nat :| 1 <= n && ReachesIn(Chain(11), 1, 12, n);
    ClosingEdgeMakesCycle(Chain(11), AddDependency(db, 12, 1).edges, 1, 12, n);
  }
}
