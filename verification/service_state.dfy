/** What the service reads and writes: the flag tables and the audit log. */
module ServiceState {
  import opened FlagEntity
  import opened AuditEntity
  import opened Graph
  import opened FlagRepository
  import opened AuditRepository

  datatype State = State(db: FlagDb, log: AuditDb)

  /** Writes one audit entry. A failure to write it is only logged by the
      service, so the model has none. */
  function Record(st: State, flagId: int, action: AuditAction, actor: string, reason: string): (r: State)
    ensures r.db == st.db
    ensures |r.log| == |st.log| + 1 && r.log[..|st.log|] == st.log
    ensures r.log[|st.log|].flagId == flagId && r.log[|st.log|].action == action
    ensures r.log[|st.log|].actor == actor && r.log[|st.log|].reason == reason
  {
    st.(log := CreateAuditLog(st.log, NewAuditLog(flagId, action, actor, reason)))
  }

  /** The row's status changes and nothing else in the state does. */
  function WithStatus(st: State, id: int, status: FlagStatus): (r: State)
    requires id in st.db.rows
    ensures r.log == st.log
    ensures r.db.rows.Keys == st.db.rows.Keys && r.db.edges == st.db.edges && r.db.nextId == st.db.nextId
    ensures r.db.rows[id].status == status && r.db.rows[id].name == st.db.rows[id].name
    ensures forall k :: k in st.db.rows && k != id ==> r.db.rows[k] == st.db.rows[k]
    ensures EnabledIds(r.db) == if status == Enabled then EnabledIds(st.db) + {id} else EnabledIds(st.db) - {id}
  {
    var r := st.(db := SetStatus(st.db, id, status));
    assert forall k :: k in EnabledIds(r.db) <==> k in (if status == Enabled then EnabledIds(st.db) + {id} else EnabledIds(st.db) - {id});
    r
  }

  /** An edge is supported when its owner is not enabled or what it depends on is enabled. */
  predicate Supported(db: FlagTable, e: Edge) {
    e.flagId in EnabledIds(db) ==> e.dependsOnId in EnabledIds(db)
  }

  lemma SubsetCardinality(a: set<int>, b: set<int>)
    requires a <= b
    ensures |a| <= |b|
  {
    assert b == a + (b - a);
  }
}
