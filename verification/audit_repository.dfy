/** The audit_logs table: an append-only sequence whose serial ids follow the
    insertion order, so "newest first" is "highest id first". */
module AuditRepository {
  import opened Results
  import opened AuditEntity

  /** PostgreSQL rejects a negative LIMIT or OFFSET. */
  datatype AuditQueryError = NegativePaging

  /** Entry i was the (i+1)-th insert and got serial id i+1. */
  predicate SerialIds(log: seq<AuditLog>) {
    forall i :: 0 <= i < |log| ==> log[i].id == i + 1
  }

  type AuditDb = log: seq<AuditLog> | SerialIds(log) witness []

  predicate IdsIncreasing(s: seq<AuditLog>) {
    forall i, j :: 0 <= i < j < |s| ==> s[i].id < s[j].id
  }

  predicate IdsDecreasing(s: seq<AuditLog>) {
    forall i, j :: 0 <= i < j < |s| ==> s[i].id > s[j].id
  }

  /** Appends the entry under the next serial id; the caller's id is ignored. */
  function CreateAuditLog(log: AuditDb, entry: AuditLog): (r: AuditDb)
    ensures |r| == |log| + 1 && r[..|log|] == log
    ensures r[|log|].flagId == entry.flagId && r[|log|].action == entry.action
    ensures r[|log|].actor == entry.actor && r[|log|].reason == entry.reason
    ensures forall i :: 0 <= i < |log| ==> log[i].id < r[|log|].id
  {
    log + [entry.(id := |log| + 1)]
  }

  /** The entries of one flag, latest insert first. */
  function EntriesNewestFirst(s: seq<AuditLog>, flagId: int): (r: seq<AuditLog>)
    requires IdsIncreasing(s)
    ensures forall e :: e in r <==> e in s && e.flagId == flagId
    ensures IdsDecreasing(r)
    decreases |s|
  {
    if |s| == 0 then []
    else
      var last := s[|s| - 1];
      var older := EntriesNewestFirst(s[..|s| - 1], flagId);
      LastIsNewest(s, older);
      if last.flagId == flagId then [last] + older else older
  }

  lemma LastIsNewest(s: seq<AuditLog>, older: seq<AuditLog>)
    requires |s| > 0 && IdsIncreasing(s)
    requires IdsDecreasing(older)
    requires forall e :: e in older ==> e in s[..|s| - 1]
    ensures forall e :: e in s <==> e in s[..|s| - 1] || e == s[|s| - 1]
    ensures IdsDecreasing([s[|s| - 1]] + older)
  {
    var last := s[|s| - 1];
    assert s == s[..|s| - 1] + [last];
    forall k | 0 <= k < |older|
      ensures older[k].id < last.id
    {
      var e := older[k];
      assert e in older;
      var m :| 0 <= m < |s| - 1 && s[..|s| - 1][m] == e;
      assert s[m] == e;
    }
    var r := [last] + older;
    forall i, j | 0 <= i < j < |r|
      ensures r[i].id > r[j].id
    {
      assert r[j] == older[j - 1];
      if i > 0 {
        assert r[i] == older[i - 1];
      }
    }
  }

  lemma SerialIdsIncrease(log: AuditDb)
    ensures IdsIncreasing(log)
  {
  }

  /** Exactly the flag's entries, newest first. */
  function ListAuditLogsByFlagID(log: AuditDb, flagId: int): (r: seq<AuditLog>)
    ensures forall e :: e in r <==> e in log && e.flagId == flagId
    ensures IdsDecreasing(r)
  {
    SerialIdsIncrease(log);
    EntriesNewestFirst(log, flagId)
  }

  /** Recording an entry puts it at the head of its flag's trail and leaves every
      other flag's trail as it was. */
  lemma CreateThenListByFlag(log: AuditDb, entry: AuditLog, flagId: int)
    ensures var after := CreateAuditLog(log, entry);
      ListAuditLogsByFlagID(after, flagId)
        == (if entry.flagId == flagId then [after[|log|]] else []) + ListAuditLogsByFlagID(log, flagId)
  {
    var after := CreateAuditLog(log, entry);
    SerialIdsIncrease(after);
    SerialIdsIncrease(log);
    assert after[..|after| - 1] == log;
  }

  /** The whole log, latest insert first. */
  function NewestFirst(log: seq<AuditLog>): (r: seq<AuditLog>)
    ensures |r| == |log|
    ensures forall i :: 0 <= i < |r| ==> r[i] == log[|log| - 1 - i]
  {
    seq(|log|, i requires 0 <= i < |log| => log[|log| - 1 - i])
  }

  /** "ORDER BY created_at DESC" over the whole table: every entry exactly as
      often as it was stored, and, since serial ids grow with insertion, ids
      strictly decreasing. */
  lemma {:induction false} NewestFirstOrdersLog(log: seq<AuditLog>)
    ensures multiset(NewestFirst(log)) == multiset(log)
    ensures IdsIncreasing(log) ==> IdsDecreasing(NewestFirst(log))
    decreases |log|
  {
    if |log| > 0 {
      var init := log[..|log| - 1];
      NewestFirstOrdersLog(init);
      assert NewestFirst(log) == [log[|log| - 1]] + NewestFirst(init);
      assert log == init + [log[|log| - 1]];
    }
  }

  function Min(a: int, b: int): int {
    if a <= b then a else b
  }

  /** One page of the whole log, newest first: skip offset entries, then take at
      most limit. */
  function ListAllAuditLogs(log: AuditDb, limit: int, offset: int): (r: Result<seq<AuditLog>, AuditQueryError>)
    ensures r.Failure? <==> limit < 0 || offset < 0
    ensures r.Success? ==>
      && |r.value| == Min(limit, if offset <= |log| then |log| - offset else 0)
      && (forall i :: 0 <= i < |r.value| ==> r.value[i] == log[|log| - 1 - offset - i])
  {
    if limit < 0 || offset < 0 then Failure(NegativePaging)
    else
      var all := NewestFirst(log);
      var start := Min(offset, |all|);
      var end := Min(start + limit, |all|);
      Success(all[start..end])
  }

  /** Two consecutive pages make up the page that spans them both. */
  lemma PagesConcatenate(log: AuditDb, a: nat, b: nat, offset: nat)
    ensures ListAllAuditLogs(log, a, offset).value + ListAllAuditLogs(log, b, offset + a).value
         == ListAllAuditLogs(log, a + b, offset).value
  {
    var p := ListAllAuditLogs(log, a, offset).value;
    var q := ListAllAuditLogs(log, b, offset + a).value;
    var w := ListAllAuditLogs(log, a + b, offset).value;
    assert |p + q| == |w|;
    forall i | 0 <= i < |w|
      ensures (p + q)[i] == w[i]
    {
      if i < |p| {
        assert (p + q)[i] == p[i] == log[|log| - 1 - offset - i];
      } else {
        assert |p| == a;
        assert (p + q)[i] == q[i - a] == log[|log| - 1 - (offset + a) - (i - a)];
      }
    }
  }
}
