/** What the service keeps true of the store when every change goes through it:
    edges and audit entries refer to existing flags, the dependency graph has no
    cycle, and no enabled flag depends on a flag that is not enabled. */
module EngineInvariant {
  import opened Results
  import opened FlagEntity
  import opened AuditEntity
  import opened Validator
  import opened Graph
  import opened FlagRepository
  import opened AuditRepository
  import opened ServiceState
  import opened Cascades
  import opened FlagService

  /** Both ends of every edge are existing flags. */
  ghost predicate EdgesClosed(db: FlagTable) {
    forall e :: e in db.edges ==> e.flagId in db.rows && e.dependsOnId in db.rows
  }

  /** Every audit entry is about an existing flag. */
  ghost predicate LogClosed(st: State) {
    forall i :: 0 <= i < |st.log| ==> st.log[i].flagId in st.db.rows
  }

  /** No enabled flag depends directly on a flag that is not enabled. */
  ghost predicate NoEnabledOnDisabled(db: FlagTable) {
    forall e :: e in db.edges ==> Supported(db, e)
  }

  ghost predicate Healthy(st: State) {
    && EdgesClosed(st.db)
    && LogClosed(st)
    && NoEnabledOnDisabled(st.db)
    && Acyclic(st.db.edges)
  }

  /** The empty store is healthy. */
  lemma EmptyStoreHealthy()
    ensures Healthy(State(FlagTable(map[], {}, 1), []))
  {
  }

  /** If no enabled flag depends on a disabled one, everything that depends on a
      disabled flag, directly or transitively, is disabled too. */
  lemma {:induction false} DisabledRootClosure(db: FlagTable, root: int, x: int, n: nat)
    requires NoEnabledOnDisabled(db)
    requires root !in EnabledIds(db)
    requires ReachesIn(db.edges, x, root, n)
    ensures x !in EnabledIds(db)
    decreases n
  {
    if n > 0 {
      var c :| Edge(x, c) in db.edges && ReachesIn(db.edges, c, root, n - 1);
      DisabledRootClosure(db, root, c, n - 1);
      assert Supported(db, Edge(x, c));
    }
  }

  // ---- CreateFlag ----

  lemma {:induction false} WalkEndsOnEdge(edges: set<Edge>, a: int, b: int, n: nat)
    requires n >= 1 && ReachesIn(edges, a, b, n)
    ensures exists e :: e in edges && e.dependsOnId == b
    decreases n
  {
    var c :| Edge(a, c) in edges && ReachesIn(edges, c, b, n - 1);
    if n == 1 {
      var e := Edge(a, c);
      assert e in edges && e.dependsOnId == b;
    } else {
      WalkEndsOnEdge(edges, c, b, n - 1);
    }
  }

  /** A walk that does not start at a node nothing points to never uses the
      edges that leave it. */
  lemma {:induction false} WalkAvoidsSource(old_: set<Edge>, new_: set<Edge>, source: int, a: int, b: int, n: nat)
    requires forall e :: e in new_ ==> e.dependsOnId != source
    requires forall e :: e in new_ && e.flagId != source ==> e in old_
    requires a != source
    requires ReachesIn(new_, a, b, n)
    ensures ReachesIn(old_, a, b, n)
    decreases n
  {
    if n > 0 {
      var c :| Edge(a, c) in new_ && ReachesIn(new_, c, b, n - 1);
      assert Edge(a, c) in old_;
      WalkAvoidsSource(old_, new_, source, c, b, n - 1);
    }
  }

  /** Edges leaving a node that nothing points to close no cycle. */
  lemma FreshSourceKeepsAcyclic(old_: set<Edge>, new_: set<Edge>, source: int)
    requires Acyclic(old_)
    requires forall e :: e in old_ ==> e.dependsOnId != source
    requires forall e :: e in new_ ==> e.dependsOnId != source
    requires forall e :: e in new_ && e.flagId != source ==> e in old_
    ensures Acyclic(new_)
  {
    forall x
      ensures !Reachable(new_, x, x)
    {
      if Reachable(new_, x, x) {
        var n: nat :| 1 <= n && ReachesIn(new_, x, x, n);
        if x != source {
          WalkAvoidsSource(old_, new_, source, x, x, n);
          assert Reachable(old_, x, x);
        } else {
          var c :| Edge(x, c) in new_ && ReachesIn(new_, c, x, n - 1);
          if n - 1 > 0 {
            WalkAvoidsSource(old_, new_, source, c, x, n - 1);
            WalkEndsOnEdge(old_, c, x, n - 1);
          }
        }
      }
    }
  }

  /** The edges after a create join existing flags, keep every enabled flag on
      enabled dependencies, and none of them points at the new flag. */
  lemma CreatedEdges(st: State, req: FlagCreateRequest, actor: string)
    requires Healthy(st)
    requires FlagService.CreateFlag(st, req, actor).result.Success?
    ensures var r := FlagService.CreateFlag(st, req, actor);
      forall e :: e in r.after.db.edges ==>
        && e.flagId in r.after.db.rows && e.dependsOnId in r.after.db.rows
        && Supported(r.after.db, e) && e.dependsOnId != r.result.value.id
  {
    var r := FlagService.CreateFlag(st, req, actor);
    var id := r.result.value.id;
    var after := r.after;
    assert forall i :: 0 <= i < |req.dependencies| ==> req.dependencies[i] in st.db.rows;
    assert forall k :: k in EnabledIds(after.db) <==> k in EnabledIds(st.db);
    forall e | e in after.db.edges
      ensures e.flagId in after.db.rows && e.dependsOnId in after.db.rows
      ensures Supported(after.db, e) && e.dependsOnId != id
    {
      if e !in st.db.edges {
        var i :| 0 <= i < |req.dependencies| && req.dependencies[i] == e.dependsOnId;
      }
    }
  }

  /** The log after a create names only existing flags. */
  lemma CreatedLog(st: State, req: FlagCreateRequest, actor: string)
    requires LogClosed(st)
    requires FlagService.CreateFlag(st, req, actor).result.Success?
    ensures LogClosed(FlagService.CreateFlag(st, req, actor).after)
  {
    var after := FlagService.CreateFlag(st, req, actor).after;
    forall i | 0 <= i < |after.log|
      ensures after.log[i].flagId in after.db.rows
    {
      if i < |st.log| {
        assert after.log[i] == after.log[..|st.log|][i];
      }
    }
  }

  lemma CreatePreserves(st: State, req: FlagCreateRequest, actor: string)
    requires Healthy(st)
    ensures Healthy(FlagService.CreateFlag(st, req, actor).after)
  {
    var r := FlagService.CreateFlag(st, req, actor);
    if r.result.Success? {
      CreatedEdges(st, req, actor);
      CreatedLog(st, req, actor);
      FreshSourceKeepsAcyclic(st.db.edges, r.after.db.edges, r.result.value.id);
    }
  }

  /** With every edge between existing flags, the cycle check CreateFlag makes
      for the id 0 never fires. */
  lemma CreateNeverReportsCycle(st: State, req: FlagCreateRequest, actor: string)
    requires EdgesClosed(st.db)
    ensures FlagService.CreateFlag(st, req, actor).result != Failure(CircularDependency)
  {
    NoCycleThroughUnusedId(st.db, req.dependencies);
  }

  /** A created flag reads back with exactly the requested dependencies. */
  lemma CreatedFlagReadsBack(st: State, req: FlagCreateRequest, actor: string)
    requires EdgesClosed(st.db)
    requires FlagService.CreateFlag(st, req, actor).result.Success?
    ensures var r := FlagService.CreateFlag(st, req, actor);
      var id := r.result.value.id;
      && GetFlag(r.after, id).Success?
      && GetFlag(r.after, id).value.name == req.name
      && GetFlag(r.after, id).value.status == Disabled
      && (forall p :: p in GetFlag(r.after, id).value.dependencies <==> p in req.dependencies)
  {
  }

  lemma OnlyEntry(r: seq<AuditLog>, x: AuditLog)
    requires IdsDecreasing(r)
    requires forall e :: e in r <==> e == x
    ensures r == [x]
  {
    assert x in r;
    forall i | 0 <= i < |r|
      ensures r[i] == x
    {
      var y := r[i];
      assert y in r;
    }
    assert |r| >= 2 ==> r[0].id > r[1].id;
  }

  /** A created flag's audit trail is its single "create" entry. */
  lemma CreatedFlagAuditTrail(st: State, req: FlagCreateRequest, actor: string)
    requires LogClosed(st)
    requires FlagService.CreateFlag(st, req, actor).result.Success?
    ensures var r := FlagService.CreateFlag(st, req, actor);
      GetFlagAuditLogs(r.after, r.result.value.id) == Success([r.after.log[|st.log|]])
  {
    var r := FlagService.CreateFlag(st, req, actor);
    var id := r.result.value.id;
    var after := r.after;
    var trail := GetFlagAuditLogs(after, id).value;
    var x := after.log[|st.log|];
    forall i | 0 <= i < |st.log|
      ensures after.log[i].flagId != id
    {
      assert after.log[i] == after.log[..|st.log|][i];
    }
    forall e
      ensures e in trail <==> e == x
    {
      if e in trail {
        var i :| 0 <= i < |after.log| && after.log[i] == e;
      }
    }
    OnlyEntry(trail, x);
  }

  // ---- EnableFlag ----

  lemma EnablePreserves(st: State, id: int, actor: string, reason: string)
    requires Healthy(st)
    ensures Healthy(EnableFlag(st, id, actor, reason).after)
  {
    var r := EnableFlag(st, id, actor, reason);
    if r.outcome.Pass? && st.db.rows[id].status == Disabled {
      var after := r.after;
      forall e | e in after.db.edges
        ensures Supported(after.db, e)
      {
        assert Supported(st.db, e);
        if e.flagId == id {
          assert Edge(id, e.dependsOnId) == e;
        }
      }
      forall i | 0 <= i < |after.log|
        ensures after.log[i].flagId in after.db.rows
      {
        if i < |st.log| {
          assert after.log[i] == after.log[..|st.log|][i];
        }
      }
    }
  }

  // ---- DisableFlag ----

  lemma DisableUnfolds(st: State, id: int, actor: string, reason: string)
    requires DisableFlag(st, id, actor, reason).outcome.Pass?
    requires id in EnabledIds(st.db)
    ensures DisableFlag(st, id, actor, reason).after == Cascade(DisableStep(st, id, actor, reason), id)
  {
  }

  lemma DisablePreserves(st: State, id: int, actor: string, reason: string)
    requires Healthy(st)
    ensures Healthy(DisableFlag(st, id, actor, reason).after)
  {
    var r := DisableFlag(st, id, actor, reason);
    if r.outcome.Pass? && st.db.rows[id].status == Enabled {
      DisableUnfolds(st, id, actor, reason);
      var st1 := DisableStep(st, id, actor, reason);
      var after := r.after;
      CascadeSupport(st1, id);
      CascadeAudit(st1, id);
      forall e | e in after.db.edges
        ensures Supported(after.db, e)
      {
        assert Supported(st.db, e);
        if e.dependsOnId == id {
          assert Edge(e.flagId, id) == e;
        } else {
          assert Supported(st1.db, e);
        }
      }
      forall i | 0 <= i < |after.log|
        ensures after.log[i].flagId in after.db.rows
      {
        if i < |st1.log| {
          assert after.log[i] == after.log[..|st1.log|][i];
          if i < |st.log| {
            assert st1.log[i] == st1.log[..|st.log|][i];
          }
        } else {
          assert after.log[i].flagId in EnabledIds(st1.db);
        }
      }
    }
  }

  /** After a successful disable, every flag that depends on it, directly or
      transitively, is disabled. */
  lemma DisableReachesAllDependents(st: State, id: int, actor: string, reason: string, x: int)
    requires Healthy(st)
    requires DisableFlag(st, id, actor, reason).outcome.Pass?
    requires Reachable(st.db.edges, x, id)
    ensures x !in EnabledIds(DisableFlag(st, id, actor, reason).after.db)
  {
    var after := DisableFlag(st, id, actor, reason).after;
    DisablePreserves(st, id, actor, reason);
    var n: nat :| 1 <= n && ReachesIn(st.db.edges, x, id, n);
    DisabledRootClosure(after.db, id, x, n);
  }

  /** A disable switches off only the flag itself and flags that depend on it. */
  lemma DisableOnlyDependents(st: State, id: int, actor: string, reason: string)
    requires DisableFlag(st, id, actor, reason).outcome.Pass?
    ensures var after := DisableFlag(st, id, actor, reason).after;
      forall x :: x in EnabledIds(st.db) - EnabledIds(after.db) ==> x == id || Reachable(st.db.edges, x, id)
  {
    if st.db.rows[id].status == Enabled {
      DisableUnfolds(st, id, actor, reason);
      CascadeReach(DisableStep(st, id, actor, reason), id);
    }
  }

  /** After the "disable" entry, a disable appends only cascade entries by
      "system", exactly one per flag the cascade switched off: as many entries as
      flags, no flag named twice, each reason naming the disabled flag itself or a
      flag the cascade switched off. */
  lemma DisableAuditTrail(st: State, id: int, actor: string, reason: string)
    requires DisableFlag(st, id, actor, reason).outcome.Pass?
    requires id in EnabledIds(st.db)
    ensures var st1 := DisableStep(st, id, actor, reason);
      var after := DisableFlag(st, id, actor, reason).after;
      && |after.log| - |st1.log| == |EnabledIds(st1.db)| - |EnabledIds(after.db)|
      && (forall i, j :: |st1.log| <= i < j < |after.log| ==> after.log[i].flagId != after.log[j].flagId)
      && (forall i :: |st1.log| <= i < |after.log| ==> after.log[i].flagId in EnabledIds(st1.db) - EnabledIds(after.db))
      && forall i :: |st1.log| <= i < |after.log| ==> CascadeEntry(st1, after, id, after.log[i])
  {
    DisableUnfolds(st, id, actor, reason);
    CascadeAudit(DisableStep(st, id, actor, reason), id);
  }

  // ---- ToggleFlag ----

  lemma TogglePreserves(st: State, id: int, req: FlagToggleRequest, actor: string)
    requires Healthy(st)
    ensures Healthy(ToggleFlag(st, id, req, actor).after)
  {
    if ValidateFlagToggleRequest(req).Pass? {
      if req.enable {
        EnablePreserves(st, id, actor, req.reason);
      } else {
        DisablePreserves(st, id, actor, req.reason);
      }
    }
  }
}
