/** The flag service: validation first, then the repository calls, the audit
    entries, and the cascade after a disable. Each operation takes the state and
    returns its result together with the state afterwards. */
module FlagService {
  import opened Results
  import opened Text
  import opened Sequences
  import opened FlagEntity
  import opened AuditEntity
  import opened Validator
  import opened Graph
  import opened FlagRepository
  import opened AuditRepository
  import opened ServiceState
  import opened Cascades

  const MissingActiveDependenciesMessage := "Missing active dependencies"
  const CreatedReason := "Flag created"

  datatype DependencyError = DependencyError(message: string, missingDependencies: seq<string>)

  datatype ServiceError =
    | Invalid(failure: ValidationFailure)
    | FlagNotFound
    | FlagAlreadyExists
    | CircularDependency
      /** "dependency flag with ID %d not found" */
    | DependencyNotFound(id: int)
      /** "failed to check dependencies: failed to get dependency flag %d: ..." */
    | DependencyLookupFailed(id: int)
    | MissingDependencies(detail: DependencyError)

  datatype Reply<T> = Reply(result: Result<T, ServiceError>, after: State)

  datatype Change = Change(outcome: Outcome<ServiceError>, after: State)

  // ---- error texts ----

  /** `DependencyError.Error`: the message alone; the missing names are carried
      only in their own field. */
  function DependencyErrorText(e: DependencyError): string {
    e.message
  }

  /** What `Error()` returns for each service error, including the wrapping the
      service adds before returning it. A failed dependency lookup during enable
      is the store's "flag not found" wrapped twice. */
  function ServiceErrorText(e: ServiceError): string {
    match e
    case Invalid(f) => FailureText(f)
    case FlagNotFound => "flag not found"
    case FlagAlreadyExists => "flag already exists"
    case CircularDependency => "circular dependency detected"
    case DependencyNotFound(id) => "dependency flag with ID " + IntText(id) + " not found"
    case DependencyLookupFailed(id) =>
      "failed to check dependencies: failed to get dependency flag " + IntText(id) + ": flag not found"
    case MissingDependencies(detail) => DependencyErrorText(detail)
  }

  /** The "not found" text names the dependency: different ids give different texts. */
  lemma DependencyNotFoundTextNamesId(a: int, b: int)
    requires ServiceErrorText(DependencyNotFound(a)) == ServiceErrorText(DependencyNotFound(b))
    ensures a == b
  {
    var pre := "dependency flag with ID ";
    var ta := ServiceErrorText(DependencyNotFound(a));
    var tb := ServiceErrorText(DependencyNotFound(b));
    assert ta[|pre|..|ta| - 10] == IntText(a);
    assert tb[|pre|..|tb| - 10] == IntText(b);
    IntTextInjective(a, b);
  }

  // ---- dependency helpers ----

  /** The position of the first id that has no row, if any. */
  function FirstMissing(db: FlagTable, ids: seq<int>): (r: Option<nat>)
    ensures r.None? <==> forall i :: 0 <= i < |ids| ==> ids[i] in db.rows
    ensures r.Some? ==> r.value < |ids| && ids[r.value] !in db.rows
    ensures r.Some? ==> forall j :: 0 <= j < r.value ==> ids[j] in db.rows
    decreases |ids|
  {
    if |ids| == 0 then None
    else if ids[0] !in db.rows then Some(0)
    else
      assert forall i :: 1 <= i < |ids| ==> ids[1..][i - 1] == ids[i];
      match FirstMissing(db, ids[1..])
      case None => None
      case Some(k) => Some(k + 1)
  }

  /** Position k holds the first id of the list that has no row. */
  predicate FirstMissingAt(db: FlagTable, ids: seq<int>, k: int) {
    0 <= k < |ids| && ids[k] !in db.rows && forall j :: 0 <= j < k ==> ids[j] in db.rows
  }

  /** `validateDependenciesExist`: stops at the first id without a row. */
  function ValidateDependenciesExist(db: FlagTable, ids: seq<int>): (r: Outcome<ServiceError>)
    ensures r.Pass? <==> forall i :: 0 <= i < |ids| ==> ids[i] in db.rows
    ensures r.Fail? ==> exists k :: FirstMissingAt(db, ids, k) && r.error == DependencyNotFound(ids[k])
  {
    match FirstMissing(db, ids)
    case None => Pass
    case Some(k) => Fail(DependencyNotFound(ids[k]))
  }

  /** The positions of the ids whose flag is disabled, ascending. */
  function DisabledPositions(db: FlagTable, ids: seq<int>): (r: seq<int>)
    requires forall i :: 0 <= i < |ids| ==> ids[i] in db.rows
    ensures Increasing(r)
    ensures forall j :: 0 <= j < |r| ==> 0 <= r[j] < |ids|
    ensures forall i :: 0 <= i < |ids| ==> (i in r <==> db.rows[ids[i]].status == Disabled)
    decreases |ids|
  {
    if |ids| == 0 then []
    else
      var last := |ids| - 1;
      assert forall i :: 0 <= i < last ==> ids[..last][i] == ids[i];
      var init := DisabledPositions(db, ids[..last]);
      init + (if db.rows[ids[last]].status == Disabled then [last] else [])
  }

  /** `getMissingActiveDependencies`: the names of the disabled dependencies in
      list order; a dependency without a row fails the whole lookup. */
  function GetMissingActiveDependencies(db: FlagTable, ids: seq<int>): (r: Result<seq<string>, ServiceError>)
    ensures r.Failure? <==> exists i :: 0 <= i < |ids| && ids[i] !in db.rows
    ensures r.Failure? ==> exists k :: FirstMissingAt(db, ids, k) && r.error == DependencyLookupFailed(ids[k])
    ensures r.Success? ==>
      && |r.value| == |DisabledPositions(db, ids)|
      && forall j :: 0 <= j < |r.value| ==> r.value[j] == db.rows[ids[DisabledPositions(db, ids)[j]]].name
  {
    match FirstMissing(db, ids)
    case Some(k) => Failure(DependencyLookupFailed(ids[k]))
    case None =>
      var ps := DisabledPositions(db, ids);
      Success(seq(|ps|, j requires 0 <= j < |ps| => db.rows[ids[ps[j]]].name))
  }

  /** Nothing is missing exactly when every dependency is enabled. */
  lemma NoMissingIffAllEnabled(db: FlagTable, ids: seq<int>)
    requires forall i :: 0 <= i < |ids| ==> ids[i] in db.rows
    ensures GetMissingActiveDependencies(db, ids).value == [] <==> forall i :: 0 <= i < |ids| ==> ids[i] in EnabledIds(db)
  {
    var ps := DisabledPositions(db, ids);
    if |ps| > 0 {
      var i := ps[0];
      assert i in ps;
    }
  }

  /** Adds one edge from the new flag per listed dependency. */
  function AddDependencies(db: FlagDb, flagId: int, ids: seq<int>): (r: FlagDb)
    ensures r.rows == db.rows && r.nextId == db.nextId
    ensures forall e :: e in r.edges <==> e in db.edges || (e.flagId == flagId && e.dependsOnId in ids)
    decreases |ids|
  {
    if |ids| == 0 then db
    else
      assert forall x :: x in ids <==> x == ids[0] || x in ids[1..];
      AddDependencies(FlagRepository.AddDependency(db, flagId, ids[0]), flagId, ids[1..])
  }

  // ---- CreateFlag ----

  /** The checks CreateFlag makes before it writes anything, in its order. */
  function CreateChecks(st: State, req: FlagCreateRequest, actor: string): (r: Outcome<ServiceError>)
    ensures r.Pass? <==>
      && ValidCreateRequest(req)
      && ValidateActor(actor).Pass?
      && (forall i :: 0 <= i < |req.dependencies| ==> req.dependencies[i] in st.db.rows)
      && !HasCircularDependency(st.db, 0, req.dependencies)
    ensures !ValidCreateRequest(req) ==> r == Fail(Invalid(FieldErrors(CreateRequestErrors(req))))
    ensures ValidCreateRequest(req) && ValidateActor(actor).Fail? ==> r == Fail(Invalid(ValidateActor(actor).error))
    ensures r.Fail? && r.error.DependencyNotFound? ==> r.error.id in req.dependencies && r.error.id !in st.db.rows
    ensures forall k :: ValidCreateRequest(req) && ValidateActor(actor).Pass? && FirstMissingAt(st.db, req.dependencies, k) ==>
      r == Fail(DependencyNotFound(req.dependencies[k]))
    ensures (&& ValidCreateRequest(req) && ValidateActor(actor).Pass?
             && (forall i :: 0 <= i < |req.dependencies| ==> req.dependencies[i] in st.db.rows)
             && HasCircularDependency(st.db, 0, req.dependencies))
      ==> r == Fail(CircularDependency)
    ensures r == Fail(CircularDependency) ==> HasCircularDependency(st.db, 0, req.dependencies)
  {
    var request := ValidateFlagCreateRequest(req);
    var who := ValidateActor(actor);
    if request.Fail? then Fail(Invalid(request.error))
    else if who.Fail? then Fail(Invalid(who.error))
    else if |req.dependencies| > 0 then
      var present := ValidateDependenciesExist(st.db, req.dependencies);
      if present.Fail? then present
      else if HasCircularDependency(st.db, 0, req.dependencies) then Fail(CircularDependency)
      else Pass
    else Pass
  }

  /** `CreateFlag`: a new flag always starts disabled; its edges are added and a
      "create" entry is recorded. Every failure leaves the state as it was. */
  function CreateFlag(st: State, req: FlagCreateRequest, actor: string): (r: Reply<Flag>)
    ensures r.result.Failure? ==> r.after == st
    ensures r.result.Success? <==> CreateChecks(st, req, actor).Pass? && !NameTaken(st.db, req.name)
    ensures CreateChecks(st, req, actor).Fail? ==> r.result == Failure(CreateChecks(st, req, actor).error)
    ensures CreateChecks(st, req, actor).Pass? && NameTaken(st.db, req.name) ==> r.result == Failure(FlagAlreadyExists)
    ensures r.result.Success? ==>
      var f := r.result.value;
      && f.id > 0 && f.id !in st.db.rows
      && f.name == req.name && f.status == Disabled && f.dependencies == req.dependencies
      && r.after.db.rows.Keys == st.db.rows.Keys + {f.id}
      && r.after.db.rows[f.id] == FlagRow(req.name, Disabled)
      && (forall k :: k in st.db.rows ==> r.after.db.rows[k] == st.db.rows[k])
      && (forall e :: e in r.after.db.edges <==> e in st.db.edges || (e.flagId == f.id && e.dependsOnId in req.dependencies))
      && |r.after.log| == |st.log| + 1 && r.after.log[..|st.log|] == st.log
      && r.after.log[|st.log|].flagId == f.id && r.after.log[|st.log|].action == Create
      && r.after.log[|st.log|].actor == actor && r.after.log[|st.log|].reason == CreatedReason
  {
    var checks := CreateChecks(st, req, actor);
    if checks.Fail? then Reply(Failure(checks.error), st)
    else
      match FlagRepository.CreateFlag(st.db, req.name, Disabled)
      case Failure(_) => Reply(Failure(FlagAlreadyExists), st)
      case Success((id, db1)) =>
        var db2 := AddDependencies(db1, id, req.dependencies);
        var st2 := Record(State(db2, st.log), id, Create, actor, CreatedReason);
        Reply(Success(Flag(id, req.name, Disabled, req.dependencies)), st2)
  }

  // ---- EnableFlag / DisableFlag / ToggleFlag ----

  /** The checks EnableFlag and DisableFlag share: a positive id, a valid actor, an
      existing flag. */
  function TargetChecks(db: FlagTable, id: int, actor: string): (r: Outcome<ServiceError>)
    ensures r.Pass? <==> id > 0 && ValidateActor(actor).Pass? && id in db.rows
    ensures id <= 0 ==> r == Fail(Invalid(Message(FlagIdMessage)))
    ensures id > 0 && ValidateActor(actor).Fail? ==> r == Fail(Invalid(ValidateActor(actor).error))
    ensures id > 0 && ValidateActor(actor).Pass? && id !in db.rows ==> r == Fail(FlagNotFound)
  {
    var idCheck := ValidateFlagID(id);
    var who := ValidateActor(actor);
    if idCheck.Fail? then Fail(Invalid(idCheck.error))
    else if who.Fail? then Fail(Invalid(who.error))
    else match GetFlagByID(db, id)
      case Failure(_) => Fail(FlagNotFound)
      case Success(_) => Pass
  }

  /** Every flag the given one depends on directly exists and is enabled. */
  ghost predicate DependenciesActive(db: FlagTable, id: int) {
    forall p :: Edge(id, p) in db.edges ==> p in EnabledIds(db)
  }

  /** DependenciesActive, read off the listed dependencies. */
  lemma ActiveIffListedEnabled(db: FlagTable, id: int)
    ensures DependenciesActive(db, id) <==>
      forall i :: 0 <= i < |GetDependencies(db, id)| ==> GetDependencies(db, id)[i] in EnabledIds(db)
  {
    var deps := GetDependencies(db, id);
    if !DependenciesActive(db, id) {
      var p :| Edge(id, p) in db.edges && p !in EnabledIds(db);
      var i :| 0 <= i < |deps| && deps[i] == p;
    }
  }

  /** The dependency check EnableFlag makes for a disabled flag. */
  function ActiveDependencyCheck(db: FlagTable, flag: Flag): (r: Outcome<ServiceError>)
    requires flag.id in db.rows && flag.dependencies == GetDependencies(db, flag.id)
    ensures r.Pass? <==> DependenciesActive(db, flag.id)
    ensures r.Fail? ==> r.error.DependencyLookupFailed? || r.error.MissingDependencies?
    ensures r.Fail? && r.error.DependencyLookupFailed? ==> Edge(flag.id, r.error.id) in db.edges && r.error.id !in db.rows
    ensures r.Fail? && r.error.DependencyLookupFailed? ==>
      && GetMissingActiveDependencies(db, flag.dependencies) == Failure(r.error)
      && exists k :: FirstMissingAt(db, flag.dependencies, k) && r.error.id == flag.dependencies[k]
    ensures r.Fail? && r.error.MissingDependencies? ==>
      && r.error.detail.message == MissingActiveDependenciesMessage
      && |r.error.detail.missingDependencies| > 0
      && GetMissingActiveDependencies(db, flag.dependencies) == Success(r.error.detail.missingDependencies)
  {
    ActiveIffListedEnabled(db, flag.id);
    if !HasDependencies(flag) then
      Pass
    else
      MissingDependencyCheck(db, flag.dependencies)
  }

  /** `getMissingActiveDependencies` turned into EnableFlag's outcome: the first
      failed lookup, or the "Missing active dependencies" error with the names. */
  function MissingDependencyCheck(db: FlagTable, ids: seq<int>): (r: Outcome<ServiceError>)
    ensures r.Pass? <==> forall i :: 0 <= i < |ids| ==> ids[i] in EnabledIds(db)
    ensures r.Fail? ==> r.error.DependencyLookupFailed? || r.error.MissingDependencies?
    ensures r.Fail? && r.error.DependencyLookupFailed? ==> r.error.id in ids && r.error.id !in db.rows
    ensures r.Fail? && r.error.DependencyLookupFailed? ==>
      && GetMissingActiveDependencies(db, ids) == Failure(r.error)
      && exists k :: FirstMissingAt(db, ids, k) && r.error.id == ids[k]
    ensures r.Fail? && r.error.MissingDependencies? ==>
      && r.error.detail.message == MissingActiveDependenciesMessage
      && |r.error.detail.missingDependencies| > 0
      && GetMissingActiveDependencies(db, ids) == Success(r.error.detail.missingDependencies)
  {
    match GetMissingActiveDependencies(db, ids)
    case Failure(e) => Fail(e)
    case Success(missing) =>
      NoMissingIffAllEnabled(db, ids);
      if |missing| > 0 then Fail(MissingDependencies(DependencyError(MissingActiveDependenciesMessage, missing)))
      else Pass
  }

  /** `EnableFlag`: a no-op for an enabled flag; otherwise enables it when all its
      dependencies are enabled, and records an "enable" entry. */
  function EnableFlag(st: State, id: int, actor: string, reason: string): (r: Change)
    ensures r.outcome.Fail? ==> r.after == st
    ensures r.outcome.Pass? <==>
      TargetChecks(st.db, id, actor).Pass? && (st.db.rows[id].status == Enabled || DependenciesActive(st.db, id))
    ensures TargetChecks(st.db, id, actor).Fail? ==> r.outcome == TargetChecks(st.db, id, actor)
    ensures TargetChecks(st.db, id, actor).Pass? && st.db.rows[id].status == Disabled ==>
      r.outcome == ActiveDependencyCheck(st.db, StoredFlag(st.db, id))
    ensures r.outcome.Pass? ==> id in EnabledIds(r.after.db)
    ensures r.outcome.Pass? && st.db.rows[id].status == Enabled ==> r.after == st
    ensures r.outcome.Pass? && st.db.rows[id].status == Disabled ==>
      && r.after.db.rows.Keys == st.db.rows.Keys
      && r.after.db.rows[id] == FlagRow(st.db.rows[id].name, Enabled)
      && (forall k :: k in st.db.rows && k != id ==> r.after.db.rows[k] == st.db.rows[k])
      && r.after.db.edges == st.db.edges
      && EnabledIds(r.after.db) == EnabledIds(st.db) + {id}
      && |r.after.log| == |st.log| + 1 && r.after.log[..|st.log|] == st.log
      && r.after.log[|st.log|].flagId == id && r.after.log[|st.log|].action == Enable
      && r.after.log[|st.log|].actor == actor && r.after.log[|st.log|].reason == reason
  {
    var checks := TargetChecks(st.db, id, actor);
    if checks.Fail? then Change(checks, st)
    else
      var flag := GetFlagByID(st.db, id).value;
      if IsEnabled(flag) then Change(Pass, st)
      else
        var deps := ActiveDependencyCheck(st.db, flag);
        if deps.Fail? then Change(deps, st)
        else Change(Pass, Record(WithStatus(st, id, Enabled), id, Enable, actor, reason))
  }

  /** `DisableFlag`: a no-op for a disabled flag; otherwise disables it, records a
      "disable" entry and cascades. A cascade never makes it fail. */
  function DisableFlag(st: State, id: int, actor: string, reason: string): (r: Change)
    ensures r.outcome.Fail? ==> r.after == st
    ensures r.outcome.Pass? <==> TargetChecks(st.db, id, actor).Pass?
    ensures r.outcome.Fail? ==> r.outcome == TargetChecks(st.db, id, actor)
    ensures r.outcome.Pass? ==> id !in EnabledIds(r.after.db)
    ensures r.outcome.Pass? && st.db.rows[id].status == Disabled ==> r.after == st
    ensures r.outcome.Pass? ==>
      && r.after.db.rows.Keys == st.db.rows.Keys
      && (forall k :: k in st.db.rows ==> r.after.db.rows[k].name == st.db.rows[k].name)
      && r.after.db.edges == st.db.edges
      && EnabledIds(r.after.db) <= EnabledIds(st.db)
      && |st.log| <= |r.after.log| && r.after.log[..|st.log|] == st.log
    ensures r.outcome.Pass? && st.db.rows[id].status == Enabled ==>
      && |r.after.log| > |st.log|
      && r.after.log[|st.log|].flagId == id && r.after.log[|st.log|].action == Disable
      && r.after.log[|st.log|].actor == actor && r.after.log[|st.log|].reason == reason
  {
    var checks := TargetChecks(st.db, id, actor);
    if checks.Fail? then Change(checks, st)
    else
      var flag := GetFlagByID(st.db, id).value;
      if IsDisabled(flag) then Change(Pass, st)
      else Change(Pass, Cascade(DisableStep(st, id, actor, reason), id))
  }

  /** The disable itself and its audit entry, before the cascade. */
  function DisableStep(st: State, id: int, actor: string, reason: string): (r: State)
    requires id in EnabledIds(st.db)
    ensures r.db.rows.Keys == st.db.rows.Keys && r.db.edges == st.db.edges
    ensures forall k :: k in st.db.rows ==> r.db.rows[k].name == st.db.rows[k].name
    ensures EnabledIds(r.db) == EnabledIds(st.db) - {id}
    ensures |r.log| == |st.log| + 1 && r.log[..|st.log|] == st.log
    ensures r.log[|st.log|].flagId == id && r.log[|st.log|].action == Disable
    ensures r.log[|st.log|].actor == actor && r.log[|st.log|].reason == reason
  {
    Record(WithStatus(st, id, Disabled), id, Disable, actor, reason)
  }

  /** `ToggleFlag`: validates the reason, then enables or disables. */
  function ToggleFlag(st: State, id: int, req: FlagToggleRequest, actor: string): (r: Change)
    ensures r.outcome.Fail? ==> r.after == st
    ensures !(ReasonMinLength <= |req.reason| <= ReasonMaxLength) ==>
      r.outcome.Fail? && r.outcome.error.Invalid? && r.outcome.error.failure == ValidateFlagToggleRequest(req).error
    ensures r.outcome.Pass? <==>
      && ReasonMinLength <= |req.reason| <= ReasonMaxLength
      && TargetChecks(st.db, id, actor).Pass?
      && (req.enable ==> st.db.rows[id].status == Enabled || DependenciesActive(st.db, id))
    ensures r.outcome.Pass? ==> (id in EnabledIds(r.after.db) <==> req.enable)
    ensures ValidateFlagToggleRequest(req).Pass? ==>
      r == if req.enable then EnableFlag(st, id, actor, req.reason) else DisableFlag(st, id, actor, req.reason)
  {
    var check := ValidateFlagToggleRequest(req);
    if check.Fail? then Change(Fail(Invalid(check.error)), st)
    else if req.enable then EnableFlag(st, id, actor, req.reason)
    else DisableFlag(st, id, actor, req.reason)
  }

  /** Repeating a toggle that succeeded changes nothing. */
  lemma ToggleIdempotent(st: State, id: int, req: FlagToggleRequest, actor: string)
    requires ToggleFlag(st, id, req, actor).outcome.Pass?
    ensures var once := ToggleFlag(st, id, req, actor).after;
      ToggleFlag(once, id, req, actor) == Change(Pass, once)
  {
    var once := ToggleFlag(st, id, req, actor).after;
    assert once.db.rows.Keys == st.db.rows.Keys;
    assert TargetChecks(once.db, id, actor).Pass?;
  }

  // ---- reads ----

  /** `GetFlag`: the flag with its dependencies. */
  function GetFlag(st: State, id: int): (r: Result<Flag, ServiceError>)
    ensures id <= 0 ==> r == Failure(Invalid(Message(FlagIdMessage)))
    ensures id > 0 && id !in st.db.rows ==> r == Failure(FlagNotFound)
    ensures r.Success? <==> id > 0 && id in st.db.rows
    ensures r.Success? ==>
      && r.value.id == id
      && r.value.name == st.db.rows[id].name
      && r.value.status == st.db.rows[id].status
      && Increasing(r.value.dependencies)
      && (forall p :: p in r.value.dependencies <==> Edge(id, p) in st.db.edges)
  {
    var idCheck := ValidateFlagID(id);
    if idCheck.Fail? then Failure(Invalid(idCheck.error))
    else match GetFlagByID(st.db, id)
      case Failure(_) => Failure(FlagNotFound)
      case Success(f) => Success(f)
  }

  /** `ListFlags`: every flag with its dependencies, ordered by name. */
  function ListFlags(st: State): (r: seq<Flag>)
    ensures SortedByName(r)
    ensures |r| == |st.db.rows|
    ensures forall i :: 0 <= i < |r| ==> GetFlag(st, r[i].id) == Success(r[i])
    ensures forall id :: id in st.db.rows ==> exists i :: 0 <= i < |r| && r[i].id == id
  {
    var r := GetFlagsWithDependencies(st.db);
    forall i | 0 <= i < |r|
      ensures GetFlag(st, r[i].id) == Success(r[i])
    {
      GetFlagIsStoredFlag(st, r[i].id);
    }
    r
  }

  /** For a stored flag, the service read and the repository read agree. */
  lemma GetFlagIsStoredFlag(st: State, id: int)
    requires id in st.db.rows
    ensures GetFlagByID(st.db, id).Success?
    ensures GetFlag(st, id) == Success(GetFlagByID(st.db, id).value)
  {
  }

  /** `GetFlagAuditLogs`: the flag's audit trail, newest first. */
  function GetFlagAuditLogs(st: State, id: int): (r: Result<seq<AuditLog>, ServiceError>)
    ensures id <= 0 ==> r == Failure(Invalid(Message(FlagIdMessage)))
    ensures id > 0 && id !in st.db.rows ==> r == Failure(FlagNotFound)
    ensures r.Success? <==> id > 0 && id in st.db.rows
    ensures r.Success? ==> (forall e :: e in r.value <==> e in st.log && e.flagId == id) && IdsDecreasing(r.value)
  {
    var idCheck := ValidateFlagID(id);
    if idCheck.Fail? then Failure(Invalid(idCheck.error))
    else match GetFlagByID(st.db, id)
      case Failure(_) => Failure(FlagNotFound)
      case Success(_) => Success(ListAuditLogsByFlagID(st.log, id))
  }
}
