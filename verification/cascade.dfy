/** The recursive cascade that follows a disable: every enabled flag that depends
    on the disabled flag is disabled in turn, with an audit entry by "system", and
    the cascade continues from it. */
module Cascades {
  import opened Text
  import opened FlagEntity
  import opened AuditEntity
  import opened Graph
  import opened FlagRepository
  import opened AuditRepository
  import opened ServiceState

  const SystemActor := "system"

  function CascadeReason(parent: int): string {
    "Automatically disabled due to dependency flag " + IntText(parent) + " being disabled"
  }

  /** The reason names the parent: different parents give different reasons. */
  lemma CascadeReasonNamesParent(p: int, q: int)
    requires CascadeReason(p) == CascadeReason(q)
    ensures p == q
  {
    var pre := "Automatically disabled due to dependency flag ";
    var rp, rq := CascadeReason(p), CascadeReason(q);
    assert rp[|pre|..|rp| - 15] == IntText(p);
    assert rq[|pre|..|rq| - 15] == IntText(q);
    IntTextInjective(p, q);
  }

  /** The entries r added to st's log name flags r disabled, no flag twice. */
  predicate NewEntriesOncePerDisabled(st: State, r: State)
    requires |st.log| <= |r.log|
  {
    && (forall i :: |st.log| <= i < |r.log| ==> r.log[i].flagId in EnabledIds(st.db) - EnabledIds(r.db))
    && (forall i, j :: |st.log| <= i < j < |r.log| ==> r.log[i].flagId != r.log[j].flagId)
  }

  /** What every cascade step keeps: the same rows, names, edges and counter, the
      old log as a prefix, no flag newly enabled, and exactly one new audit entry
      per flag it disabled (as many entries as flags, each naming a different
      disabled flag). */
  predicate Evolves(st: State, r: State) {
    && r.db.rows.Keys == st.db.rows.Keys
    && (forall k :: k in st.db.rows ==> r.db.rows[k].name == st.db.rows[k].name)
    && r.db.edges == st.db.edges
    && r.db.nextId == st.db.nextId
    && |st.log| <= |r.log|
    && r.log[..|st.log|] == st.log
    && EnabledIds(r.db) <= EnabledIds(st.db)
    && |r.log| - |st.log| == |EnabledIds(st.db)| - |EnabledIds(r.db)|
    && NewEntriesOncePerDisabled(st, r)
  }

  lemma EvolvesTransitive(a: State, b: State, c: State)
    requires Evolves(a, b) && Evolves(b, c)
    ensures Evolves(a, c)
  {
    assert c.log[..|a.log|] == c.log[..|b.log|][..|a.log|];
    forall i | |a.log| <= i < |b.log|
      ensures c.log[i] == b.log[i]
    {
      assert c.log[i] == c.log[..|b.log|][i];
    }
    forall i | |a.log| <= i < |c.log|
      ensures c.log[i].flagId in EnabledIds(a.db) - EnabledIds(c.db)
      ensures i < |b.log| ==> c.log[i].flagId !in EnabledIds(b.db)
      ensures i >= |b.log| ==> c.log[i].flagId in EnabledIds(b.db)
    {
    }
  }

  /** Disables, one by one, the enabled flags that depend directly on parent, each
      followed by the cascade from it. Dependents are listed once, before the loop;
      each one's status is read afresh when its turn comes. */
  function Cascade(st: State, parent: int): (r: State)
    ensures Evolves(st, r)
    decreases |EnabledIds(st.db)|, 1
  {
    CascadeOver(st, parent, GetDependents(st.db, parent))
  }

  /** The first flag of the list, if it still exists and is enabled, is disabled and
      recorded, and the cascade continues from it before the rest of the list. */
  function CascadeStep(st: State, parent: int, d: int): (r: State)
    requires d in EnabledIds(st.db)
    ensures Evolves(st, r)
    ensures EnabledIds(r.db) == EnabledIds(st.db) - {d}
    ensures |EnabledIds(r.db)| < |EnabledIds(st.db)|
    ensures r.log[|st.log|].flagId == d && r.log[|st.log|].action == CascadeDisable
    ensures r.log[|st.log|].actor == SystemActor && r.log[|st.log|].reason == CascadeReason(parent)
  {
    Record(WithStatus(st, d, Disabled), d, CascadeDisable, SystemActor, CascadeReason(parent))
  }

  function CascadeOver(st: State, parent: int, ds: seq<int>): (r: State)
    ensures Evolves(st, r)
    decreases |EnabledIds(st.db)|, 0, |ds|
  {
    if |ds| == 0 then st
    else if ds[0] in EnabledIds(st.db) then
      var st1 := CascadeStep(st, parent, ds[0]);
      var st2 := Cascade(st1, ds[0]);
      SubsetCardinality(EnabledIds(st2.db), EnabledIds(st1.db));
      var st3 := CascadeOver(st2, parent, ds[1..]);
      EvolvesTransitive(st, st1, st2);
      EvolvesTransitive(st, st2, st3);
      st3
    else
      CascadeOver(st, parent, ds[1..])
  }

  // Support: a cascade never leaves an enabled flag depending on a flag it disabled.

  lemma {:induction false} CascadeSupport(st: State, parent: int)
    ensures forall e :: e in st.db.edges && Supported(st.db, e) ==> Supported(Cascade(st, parent).db, e)
    ensures forall d :: Edge(d, parent) in st.db.edges ==> d !in EnabledIds(Cascade(st, parent).db)
    decreases |EnabledIds(st.db)|, 1
  {
    var ds := GetDependents(st.db, parent);
    CascadeOverSupport(st, parent, ds);
    forall d | Edge(d, parent) in st.db.edges
      ensures d !in EnabledIds(Cascade(st, parent).db)
    {
      var k :| 0 <= k < |ds| && ds[k] == d;
    }
  }

  lemma {:induction false} CascadeOverSupport(st: State, parent: int, ds: seq<int>)
    ensures forall e :: e in st.db.edges && Supported(st.db, e) ==> Supported(CascadeOver(st, parent, ds).db, e)
    ensures forall k :: 0 <= k < |ds| ==> ds[k] !in EnabledIds(CascadeOver(st, parent, ds).db)
    decreases |EnabledIds(st.db)|, 0, |ds|
  {
    if |ds| == 0 {
    } else if ds[0] in EnabledIds(st.db) {
      var d := ds[0];
      var st1 := CascadeStep(st, parent, d);
      var st2 := Cascade(st1, d);
      SubsetCardinality(EnabledIds(st2.db), EnabledIds(st1.db));
      var st3 := CascadeOver(st2, parent, ds[1..]);
      assert CascadeOver(st, parent, ds) == st3;
      CascadeSupport(st1, d);
      CascadeOverSupport(st2, parent, ds[1..]);
      forall e | e in st.db.edges && Supported(st.db, e)
        ensures Supported(st2.db, e)
      {
        if e.dependsOnId == d {
          assert e == Edge(e.flagId, d);
        }
      }
      forall k | 0 <= k < |ds|
        ensures ds[k] !in EnabledIds(st3.db)
      {
        if k > 0 {
          assert ds[k] == ds[1..][k - 1];
        }
      }
    } else {
      var st3 := CascadeOver(st, parent, ds[1..]);
      CascadeOverSupport(st, parent, ds[1..]);
      forall k | 0 <= k < |ds|
        ensures ds[k] !in EnabledIds(st3.db)
      {
        if k > 0 {
          assert ds[k] == ds[1..][k - 1];
        }
      }
    }
  }

  // Reach: a cascade disables exactly the flags that depend on its root through
  // a chain of flags that were enabled when it started.

  lemma {:induction false} CascadeReach(st: State, parent: int)
    ensures forall x :: x in EnabledIds(st.db) - EnabledIds(Cascade(st, parent).db) ==>
      ReachableThrough(st.db.edges, EnabledIds(st.db), x, parent)
    ensures forall x :: x in EnabledIds(st.db) - EnabledIds(Cascade(st, parent).db) ==> Reachable(st.db.edges, x, parent)
    decreases |EnabledIds(st.db)|, 1
  {
    CascadeOverReach(st, parent, GetDependents(st.db, parent));
  }

  lemma {:induction false} CascadeOverReach(st: State, parent: int, ds: seq<int>)
    requires forall k :: 0 <= k < |ds| ==> Edge(ds[k], parent) in st.db.edges
    ensures forall x :: x in EnabledIds(st.db) - EnabledIds(CascadeOver(st, parent, ds).db) ==>
      ReachableThrough(st.db.edges, EnabledIds(st.db), x, parent)
    ensures forall x :: x in EnabledIds(st.db) - EnabledIds(CascadeOver(st, parent, ds).db) ==> Reachable(st.db.edges, x, parent)
    decreases |EnabledIds(st.db)|, 0, |ds|
  {
    var s := EnabledIds(st.db);
    var r := CascadeOver(st, parent, ds);
    if |ds| == 0 {
    } else {
      var rest := ds[1..];
      assert forall k :: 0 <= k < |rest| ==> Edge(rest[k], parent) in st.db.edges by {
        assert forall k :: 0 <= k < |rest| ==> rest[k] == ds[k + 1];
      }
      if ds[0] in s {
        var d := ds[0];
        var st1 := CascadeStep(st, parent, d);
        var st2 := Cascade(st1, d);
        SubsetCardinality(EnabledIds(st2.db), EnabledIds(st1.db));
        CascadeOverEnabledHead(st, parent, ds);
        CascadeReach(st1, d);
        CascadeOverReach(st2, parent, rest);
        ReachCombine(st.db.edges, s, EnabledIds(st1.db), EnabledIds(st2.db), EnabledIds(r.db), d, parent);
      } else {
        CascadeOverSkippedHead(st, parent, ds);
        CascadeOverReach(st, parent, rest);
      }
    }
    forall x | x in s - EnabledIds(r.db)
      ensures Reachable(st.db.edges, x, parent)
    {
      ThroughIsReachable(st.db.edges, s, x, parent);
    }
  }

  /** The enabled-head step of CascadeOverReach on the enabled sets alone: s before
      the step, s1 after disabling d, s2 after the cascade from d, s3 after the
      rest of the loop. */
  lemma ReachCombine(edges: set<Edge>, s: set<int>, s1: set<int>, s2: set<int>, s3: set<int>, d: int, parent: int)
    requires d in s && Edge(d, parent) in edges
    requires s1 == s - {d} && s2 <= s1 && s3 <= s2
    requires forall x :: x in s1 - s2 ==> ReachableThrough(edges, s1, x, d)
    requires forall x :: x in s2 - s3 ==> ReachableThrough(edges, s2, x, parent)
    ensures forall x :: x in s - s3 ==> ReachableThrough(edges, s, x, parent)
  {
    forall x | x in s - s3
      ensures ReachableThrough(edges, s, x, parent)
    {
      if x == d {
        ThroughExtends(edges, s, s, x, d, parent, 0);
      } else if x !in s2 {
        assert x in s1 - s2;
        var n: nat :| 1 <= n && ReachesInThrough(edges, s1, x, d, n);
        ThroughExtends(edges, s1, s, x, d, parent, n);
      } else {
        assert x in s2 - s3;
        var n: nat :| 1 <= n && ReachesInThrough(edges, s2, x, parent, n);
        ThroughWidens(edges, s2, s, x, parent, n);
      }
    }
  }

  /** Every flag that depends on the root through flags enabled at the start ends
      disabled: the converse of CascadeReach. */
  lemma {:induction false} ThroughRootEndsDisabled(st: State, parent: int, x: int, n: nat)
    requires 1 <= n && ReachesInThrough(st.db.edges, EnabledIds(st.db), x, parent, n)
    ensures x !in EnabledIds(Cascade(st, parent).db)
    decreases n
  {
    var s := EnabledIds(st.db);
    var r := Cascade(st, parent);
    CascadeSupport(st, parent);
    var c :| Edge(x, c) in st.db.edges && ReachesInThrough(st.db.edges, s, c, parent, n - 1);
    if n == 1 {
      assert Edge(x, parent) in st.db.edges;
    } else {
      ThroughRootEndsDisabled(st, parent, c, n - 1);
      assert Supported(st.db, Edge(x, c));
      assert Supported(r.db, Edge(x, c));
    }
  }

  /** A cascade disables exactly the flags that reach its root through flags that
      were enabled when it started. */
  lemma CascadeDisablesExactly(st: State, parent: int)
    ensures forall x :: x in EnabledIds(st.db) - EnabledIds(Cascade(st, parent).db) <==>
      ReachableThrough(st.db.edges, EnabledIds(st.db), x, parent)
  {
    CascadeReach(st, parent);
    forall x | ReachableThrough(st.db.edges, EnabledIds(st.db), x, parent)
      ensures x in EnabledIds(st.db) - EnabledIds(Cascade(st, parent).db)
    {
      var n: nat :| 1 <= n && ReachesInThrough(st.db.edges, EnabledIds(st.db), x, parent, n);
      ThroughRootEndsDisabled(st, parent, x, n);
    }
  }

  // Audit: what a cascade adds to the log.

  /** An entry of the cascade from root that took st to r: by "system", with a
      reason naming a flag the entry's flag depends on, and that flag is the root
      or one the same cascade disabled. (Which flags get entries is fixed by
      `Evolves`.) */
  ghost predicate CascadeEntry(st: State, r: State, root: int, entry: AuditLog) {
    && entry.action == CascadeDisable
    && entry.actor == SystemActor
    && exists q :: && Edge(entry.flagId, q) in st.db.edges
                   && entry.reason == CascadeReason(q)
                   && (q == root || q in EnabledIds(st.db) - EnabledIds(r.db))
  }

  /** Every entry the change from st to r added is an entry of the cascade from root. */
  ghost predicate AllCascadeEntries(st: State, r: State, root: int)
    requires |st.log| <= |r.log|
  {
    forall i :: |st.log| <= i < |r.log| ==> CascadeEntry(st, r, root, r.log[i])
  }

  /** An entry of a cascade from a to b stays one when the run goes on to c. */
  lemma CascadeEntryExtends(a: State, b: State, c: State, root: int, entry: AuditLog)
    requires Evolves(a, b) && Evolves(b, c)
    requires CascadeEntry(a, b, root, entry)
    ensures CascadeEntry(a, c, root, entry)
  {
    var q :| && Edge(entry.flagId, q) in a.db.edges && entry.reason == CascadeReason(q)
             && (q == root || q in EnabledIds(a.db) - EnabledIds(b.db));
    assert q == root || q in EnabledIds(a.db) - EnabledIds(c.db);
  }

  /** An entry of a nested cascade from root2, run from b to c, is an entry of the
      whole run from a to c when root2 is the outer root or a flag the run disabled. */
  lemma CascadeEntryWidens(a: State, b: State, c: State, root: int, root2: int, entry: AuditLog)
    requires Evolves(a, b) && Evolves(b, c)
    requires root2 == root || root2 in EnabledIds(a.db) - EnabledIds(c.db)
    requires CascadeEntry(b, c, root2, entry)
    ensures CascadeEntry(a, c, root, entry)
  {
    var q :| && Edge(entry.flagId, q) in b.db.edges && entry.reason == CascadeReason(q)
             && (q == root2 || q in EnabledIds(b.db) - EnabledIds(c.db));
    assert q == root || q in EnabledIds(a.db) - EnabledIds(c.db);
  }

  lemma {:induction false} CascadeAudit(st: State, parent: int)
    ensures AllCascadeEntries(st, Cascade(st, parent), parent)
    decreases |EnabledIds(st.db)|, 1
  {
    CascadeOverAudit(st, parent, GetDependents(st.db, parent));
  }

  /** The entries of two successive changes are entries of both together, when
      the second runs from the outer root or from a flag the first disabled. */
  lemma CascadeEntriesCompose(a: State, b: State, c: State, root: int, root2: int)
    requires Evolves(a, b) && Evolves(b, c)
    requires root2 == root || root2 in EnabledIds(a.db) - EnabledIds(c.db)
    requires AllCascadeEntries(a, b, root) && AllCascadeEntries(b, c, root2)
    ensures Evolves(a, c) && AllCascadeEntries(a, c, root)
  {
    EvolvesTransitive(a, b, c);
    forall i | |a.log| <= i < |c.log|
      ensures CascadeEntry(a, c, root, c.log[i])
    {
      if i < |b.log| {
        assert c.log[i] == c.log[..|b.log|][i] == b.log[i];
        CascadeEntryExtends(a, b, c, root, c.log[i]);
      } else {
        CascadeEntryWidens(a, b, c, root, root2, c.log[i]);
      }
    }
  }

  /** The entry one cascade step records names the parent. */
  lemma StepIsCascadeEntry(st: State, parent: int, d: int)
    requires d in EnabledIds(st.db) && Edge(d, parent) in st.db.edges
    ensures AllCascadeEntries(st, CascadeStep(st, parent, d), parent)
  {
    var r := CascadeStep(st, parent, d);
    var q := parent;
    assert Edge(r.log[|st.log|].flagId, q) in st.db.edges && r.log[|st.log|].reason == CascadeReason(q);
  }

  /** One step of the loop when the head of the list is still enabled. */
  lemma CascadeOverEnabledHead(st: State, parent: int, ds: seq<int>)
    requires |ds| > 0 && ds[0] in EnabledIds(st.db)
    ensures CascadeOver(st, parent, ds) == CascadeOver(Cascade(CascadeStep(st, parent, ds[0]), ds[0]), parent, ds[1..])
  {
  }

  /** One step of the loop when the head of the list is no longer enabled. */
  lemma CascadeOverSkippedHead(st: State, parent: int, ds: seq<int>)
    requires |ds| > 0 && ds[0] !in EnabledIds(st.db)
    ensures CascadeOver(st, parent, ds) == CascadeOver(st, parent, ds[1..])
  {
  }

  lemma {:induction false} CascadeOverAudit(st: State, parent: int, ds: seq<int>)
    requires forall k :: 0 <= k < |ds| ==> Edge(ds[k], parent) in st.db.edges
    ensures AllCascadeEntries(st, CascadeOver(st, parent, ds), parent)
    decreases |EnabledIds(st.db)|, 0, |ds|
  {
    if |ds| == 0 {
    } else {
      var rest := ds[1..];
      assert forall k :: 0 <= k < |rest| ==> Edge(rest[k], parent) in st.db.edges by {
        assert forall k :: 0 <= k < |rest| ==> rest[k] == ds[k + 1];
      }
      if ds[0] in EnabledIds(st.db) {
        var d := ds[0];
        var st1 := CascadeStep(st, parent, d);
        var st2 := Cascade(st1, d);
        SubsetCardinality(EnabledIds(st2.db), EnabledIds(st1.db));
        var st3 := CascadeOver(st2, parent, rest);
        CascadeOverEnabledHead(st, parent, ds);
        StepIsCascadeEntry(st, parent, d);
        CascadeAudit(st1, d);
        CascadeOverAudit(st2, parent, rest);
        CascadeEntriesCompose(st, st1, st2, parent, d);
        CascadeEntriesCompose(st, st2, st3, parent, parent);
      } else {
        CascadeOverSkippedHead(st, parent, ds);
        CascadeOverAudit(st, parent, rest);
      }
    }
  }
}
