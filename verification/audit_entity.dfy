/** Audit log entries: one record per state change of a flag. */
module AuditEntity {
  import opened Results

  /** The kinds of action an audit entry records. */
  datatype AuditAction = Create | Enable | Disable | CascadeDisable | Update | Delete

  /** The text stored in the action column for each action. */
  function ActionText(a: AuditAction): string {
    match a
    case Create => "create"
    case Enable => "enable"
    case Disable => "disable"
    case CascadeDisable => "cascade_disable"
    case Update => "update"
    case Delete => "delete"
  }

  /** Reads an action column value back. */
  function ParseAction(text: string): (r: Option<AuditAction>)
    ensures r.Some? ==> ActionText(r.value) == text
  {
    if text == "create" then Some(Create)
    else if text == "enable" then Some(Enable)
    else if text == "disable" then Some(Disable)
    else if text == "cascade_disable" then Some(CascadeDisable)
    else if text == "update" then Some(Update)
    else if text == "delete" then Some(Delete)
    else None
  }

  /** Every action survives being stored as text and read back. */
  lemma ActionRoundTrip(a: AuditAction)
    ensures ParseAction(ActionText(a)) == Some(a)
  {
  }

  /** The six action texts are pairwise distinct. */
  lemma ActionTextsDistinct(a: AuditAction, b: AuditAction)
    requires a != b
    ensures ActionText(a) != ActionText(b)
  {
    ActionRoundTrip(a);
    ActionRoundTrip(b);
  }

  /** One audit entry. `id` is 0 until the entry is persisted; the creation time
      is modelled by the entry's position in the log. */
  datatype AuditLog = AuditLog(id: int, flagId: int, action: AuditAction, actor: string, reason: string)

  /** A new, not yet persisted entry with exactly the given fields. */
  function NewAuditLog(flagId: int, action: AuditAction, actor: string, reason: string): (r: AuditLog)
    ensures r.id == 0
    ensures r.flagId == flagId && r.action == action && r.actor == actor && r.reason == reason
  {
    AuditLog(0, flagId, action, actor, reason)
  }

  predicate IsCascadeAction(a: AuditLog)
    ensures IsCascadeAction(a) <==> ActionText(a.action) == "cascade_disable"
  {
    a.action == CascadeDisable
  }
}
