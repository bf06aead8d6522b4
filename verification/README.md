# Feature flags with dependencies — a Dafny model

This project models the core of a feature-flag service written in Go. A flag has:
- a unique name;
- a status, enabled or disabled;
- a set of dependencies, which are other flags it requires.

Every state change is recorded in an append-only audit log. The model covers:

- **Entities** (`FlagEntity`, `AuditEntity`): the flag and audit-entry records and their helper methods. Statuses and actions are stored as text, and each has a round trip between the datatype and its text.
- **Validation** (`Validator`): the struct tags on the create and toggle requests, the custom `flag_name` rule, the standalone id, actor and dependency validators, and the way field errors are formatted.
- **Flag store** (`FlagRepository`, `Graph`):
  - the `flags` table is a map from serial id to (name, status) row;
  - the `flag_dependencies` table is a set of edges;
  - every repository query: create, get by id or name, list ordered by name, update status, add an edge, list dependencies and dependents, and the recursive cycle query.
- **Audit store** (`AuditRepository`): the `audit_logs` table as a sequence whose serial ids follow insertion order, with the per-flag listing and the paged listing.
- **Service** (`ServiceState`, `Cascades`, `FlagService`): create, enable, disable, toggle, get, list and audit-trail operations. Each takes the state (both tables) and returns its result together with the new state. This includes the recursive cascade that disables every enabled dependent after a disable.
- **Invariant** (`EngineInvariant`): the facts every service operation keeps when all changes go through the service:
  - edges and audit entries refer to existing flags;
  - the dependency graph is acyclic;
  - no enabled flag depends on a flag that is not enabled.

  From the last fact, a disable leaves every transitive dependent disabled.

Behaviour the model makes explicit:

- **The cycle query only follows dependencies to depth 10.** It is modelled level by level (`Graph.FoundWithin`) and proved equal to "reachable in 1 to 10 steps". On a chain of eleven edges it misses a real cycle (`FlagRepository.CycleCheckMissesLongChain`).
- **A path of length zero is not a cycle to the query.** Listing the flag itself among its proposed dependencies is not reported.
- **The service asks the cycle question with the id 0.** No row has that id, so when every edge joins existing flags the check never fires (`EngineInvariant.CreateNeverReportsCycle`). Cycles still cannot arise: a new flag has no incoming edges, so its new edges close no cycle (`EngineInvariant.CreatePreserves`).
- **The enable check looks only at direct dependencies.** That is sound because of the cascade invariant.
- **The missing-dependency names come in ascending dependency id order.** This is the order of the store's `ORDER BY depends_on_id`.
- **The actor limit of 100 is in UTF-8 bytes.** Go's `len` counts bytes. The `min`/`max` tags on name and reason count characters.
- **The cascade keeps no visited set.** It terminates because each step disables one enabled flag; that count is its termination measure.
- **The cascade recurses only from a flag it has just disabled.** So it switches off exactly the flags that reach the root through flags that were enabled when it started (`Cascades.CascadeDisablesExactly`). An enabled flag that reaches the root only through an already-disabled flag is left alone. Under the invariant, no enabled flag depends on a disabled one, so this case does not arise.
- **Create stops at the first missing dependency.** The existence check walks the list in order and returns `DependencyNotFound` for the first id without a row. The cycle check runs only once every dependency exists (`FlagService.CreateChecks`).
- **The code defines six audit actions.** They are create, enable, disable, cascade_disable, update and delete. The service writes only the first four.
- **The repository's `AddDependency` checks nothing.** It neither checks that both flags exist nor looks for a cycle (`FlagRepository.AddDependency`). The service calls it only for the edges of a flag it has just created, so no operation gives an existing flag a new dependency.

## Model

| member | source | states |
|---|---|---|
| `FlagEntity.ParseStatus` | entity/flag.go:7-12 | a parsed status text is the text of the status returned |
| `FlagEntity.StatusRoundTrip` | entity/flag.go:9-12 | each status read back from its stored text is itself |
| `FlagEntity.IsEnabled` | entity/flag.go:25-27 | true exactly when the stored status text is "enabled" |
| `FlagEntity.IsDisabled` | entity/flag.go:30-32 | true exactly when the stored status text is "disabled" |
| `FlagEntity.EnabledXorDisabled` | entity/flag.go:24-32 | a flag is exactly one of enabled and disabled |
| `FlagEntity.Enable` | entity/flag.go:35-38 | the result is enabled; id, name and dependencies are unchanged |
| `FlagEntity.Disable` | entity/flag.go:41-44 | the result is disabled; id, name and dependencies are unchanged |
| `FlagEntity.HasDependencies` | entity/flag.go:47-49 | true exactly when some id is in the dependency list |
| `FlagEntity.Contains` | entity/flag.go:53-57 | the scan finds x exactly when x is in the list |
| `FlagEntity.AddDependency` | entity/flag.go:52-59 | the id is listed afterwards; membership is the old list plus the id; the old list is a prefix; the length grows by at most one; a duplicate-free list stays duplicate-free |
| `FlagEntity.AddDependencyIdempotent` | entity/flag.go:53-56 | adding the same dependency twice is adding it once |
| `FlagEntity.RemoveDependency` | entity/flag.go:62-69 | an absent id leaves the flag unchanged; otherwise exactly the first occurrence is cut out and the length drops by one |
| `FlagEntity.RemoveUndoesAdd` | entity/flag.go:52-69 | removing a dependency just added (not previously listed) restores the flag |
| `AuditEntity.ParseAction` | entity/audit_log.go:8-17 | a parsed action text is the text of the action returned |
| `AuditEntity.ActionRoundTrip` | entity/audit_log.go:10-17 | each action read back from its stored text is itself |
| `AuditEntity.ActionTextsDistinct` | entity/audit_log.go:10-17 | different actions have different texts |
| `AuditEntity.NewAuditLog` | entity/audit_log.go:30-38 | the entry carries exactly the given flag id, action, actor and reason, with no id yet |
| `AuditEntity.IsCascadeAction` | entity/audit_log.go:41-43 | true exactly when the action text is "cascade_disable" |
| `Validator.AllFlagNameChars` | validator/flag_validator.go:101-108 | the loop accepts exactly when every character is a letter, digit, '_' or '-' |
| `Validator.ValidFlagName` | validator/flag_validator.go:97-117 | accepts exactly names of allowed characters whose first and last characters are not '_' or '-' |
| `Validator.NameError` | validator/flag_validator.go:22 | no error exactly when the name is non-empty, passes flag_name and is 3 to 100 characters; any error is on field "Name" |
| `Validator.NonPositivePositions` | validator/flag_validator.go:23 | the ascending positions of exactly the ids that are not greater than 0 |
| `Validator.DependencyErrors` | validator/flag_validator.go:23 | one "gt" error per non-positive id, in index order, naming that index |
| `Validator.NoDependencyErrorsIff` | validator/flag_validator.go:23 | `dive,gt=0` reports nothing exactly when every id is positive |
| `Validator.CreateRequestErrors` | validator/flag_validator.go:21-24 | no field error exactly when the request satisfies all its tags |
| `Validator.CreateRequestErrorsInFieldOrder` | validator/flag_validator.go:21-24 | struct field order: the Name error, if any, comes first, and the dependency errors follow, all of them and nothing else |
| `Validator.ValidateFlagCreateRequest` | validator/flag_validator.go:52-57 | nil exactly when the request is valid; otherwise the non-empty list of all field errors |
| `Validator.ReasonError` | validator/flag_validator.go:29 | no error exactly when the reason is 3 to 500 characters; any error is on field "Reason" |
| `Validator.ValidateFlagToggleRequest` | validator/flag_validator.go:60-65 | nil exactly when the reason is 3 to 500 characters, whatever Enable is; otherwise a single "Reason" error |
| `Validator.ValidateFlagID` | validator/flag_validator.go:68-73 | nil exactly when the id is positive; otherwise the fixed message |
| `Validator.ValidateActor` | validator/flag_validator.go:76-84 | nil exactly when the actor is non-empty and at most 100 UTF-8 bytes; "actor is required" for the empty actor, the "too long" message for any actor over 100 bytes |
| `Validator.AsciiActorAccepted` | validator/flag_validator.go:80 | an ASCII actor of 1 to 100 characters is accepted |
| `Validator.ValidateDependencies` | validator/flag_validator.go:87-94 | nil exactly when every id is positive; otherwise the fixed message |
| `Validator.DependencyValidatorsAgree` | validator/flag_validator.go:23 | the standalone dependency validator accepts exactly what the `dive,gt=0` tag accepts |
| `Validator.ErrorLines` | validator/flag_validator.go:45-47 | one "Field: Message" line per error, in order |
| `Validator.ErrorText` | validator/flag_validator.go:43-49 | empty exactly when there are no errors; a single error is its own "Field: Message" line; with ErrorTextSnoc this fixes the lines joined by ", " |
| `Validator.ErrorTextSnoc` | validator/flag_validator.go:48 | one more error appends ", " and its line |
| `Text.Decimal` | service/flag_service.go:337 | Go's `%d` of a natural number: only digits, no leading zero |
| `Text.ParseDecimalOfDecimal` | service/flag_service.go:337 | reading a rendered number back gives the number |
| `Text.IntTextInjective` | service/flag_service.go:288 | `%d` of a signed integer: distinct integers have distinct texts |
| `Text.Utf8Length` | validator/flag_validator.go:80 | the byte length is between the character count and four times it, and zero only for "" |
| `Graph.FoundWithinSound` | repository/flag_repository.go:184-198 | whatever the depth-bounded query finds lies at the end of a walk of 1 to depth edges from the start |
| `Graph.FoundWithinComplete` | repository/flag_repository.go:184-198 | every node at the end of a walk of 1 to depth edges is found |
| `Graph.FoundWithinExactly` | repository/flag_repository.go:184-198 | from one flag, the query finds exactly what is reachable in 1 to depth steps |
| `Graph.NeverFoundWithoutIncomingEdge` | repository/flag_repository.go:198 | a node no edge points to is never found |
| `Graph.ElevenEdgeChainEscapesSearch` | repository/flag_repository.go:196 | on the chain 1 -> ... -> 12, 12 is reachable from 1 but not within depth 10 |
| `FlagRepository.CreateFlag` | repository/flag_repository.go:42-60 | AlreadyExists exactly when the name is taken; otherwise a fresh positive id whose row is the given name and status, with every other row and every edge unchanged |
| `FlagRepository.GetDependencies` | repository/flag_repository.go:159-167 | ascending, and containing exactly the ids the flag has an edge to |
| `FlagRepository.GetDependents` | repository/flag_repository.go:169-177 | ascending, and containing exactly the ids that have an edge to the flag |
| `FlagRepository.DependentsMirrorDependencies` | repository/flag_repository.go:159-177 | y is a dependent of x exactly when x is a dependency of y |
| `FlagRepository.StoredFlag` | repository/flag_repository.go:62-81 | the row's id, name and status with its dependencies loaded |
| `FlagRepository.GetFlagByID` | repository/flag_repository.go:62-81 | NotFound exactly when no row has the id; otherwise that row with exactly its dependencies, ascending |
| `FlagRepository.GetFlagByName` | repository/flag_repository.go:83-102 | NotFound exactly when no row has the name; otherwise the only row with that name, as GetFlagByID returns it |
| `FlagRepository.InsertByName` | repository/flag_repository.go:106 | inserting into a name-sorted list keeps it sorted and adds exactly the one flag (as a multiset) |
| `FlagRepository.SortByName` | repository/flag_repository.go:106 | a name-sorted permutation of the input |
| `FlagRepository.ListFlags` | repository/flag_repository.go:104-112 | sorted by name, one entry per row, each the row without dependencies, every row present |
| `FlagRepository.GetFlagsWithDependencies` | repository/flag_repository.go:114-130 | sorted by name, one entry per row, each equal to what GetFlagByID returns for it, every row present |
| `FlagRepository.SetStatus` | repository/flag_repository.go:133 | only the given row's status changes |
| `FlagRepository.UpdateFlagStatus` | repository/flag_repository.go:132-148 | NotFound exactly when no row has the id; otherwise only that row's status changes |
| `FlagRepository.AddDependency` | repository/flag_repository.go:150-157 | the edge set afterwards is the old one plus the edge; rows untouched; no existence check |
| `FlagRepository.AddDependencyIdempotent` | repository/flag_repository.go:151 | inserting an existing edge changes nothing (ON CONFLICT DO NOTHING) |
| `FlagRepository.AddDependencyVisible` | repository/flag_repository.go:150-177 | a new edge shows in both the dependency and the dependent lookups |
| `FlagRepository.CreateThenGet` | repository/flag_repository.go:42-102 | a created flag reads back by id with its name and status, and by name as the same flag |
| `FlagRepository.CreateTwiceFails` | repository/flag_repository.go:49-51 | a second create with the same name fails with AlreadyExists |
| `FlagRepository.UpdateThenGet` | repository/flag_repository.go:132-148 | after a status update GetFlagByID returns the old flag with only the status replaced |
| `FlagRepository.HasCircularDependency` | repository/flag_repository.go:179-212 | true exactly when the flag is reachable within depth 10 from some proposed dependency |
| `FlagRepository.HasCircularDependencySound` | repository/flag_repository.go:179-212 | a reported cycle is a real path from a proposed dependency to the flag |
| `FlagRepository.NoCycleThroughUnusedId` | service/flag_service.go:75 | when every edge points to an existing flag, the check for id 0 is false |
| `FlagRepository.CycleCheckMissesLongChain` | repository/flag_repository.go:196 | on an 11-edge chain the check lets 12 depend on 1, and the edge set becomes cyclic |
| `AuditRepository.CreateAuditLog` | repository/audit_repository.go:26-33 | appends one entry with the given flag, action, actor and reason and an id above every earlier id; earlier entries untouched |
| `AuditRepository.EntriesNewestFirst` | repository/audit_repository.go:37-42 | exactly the entries of the flag, ids strictly decreasing |
| `AuditRepository.ListAuditLogsByFlagID` | repository/audit_repository.go:35-48 | exactly that flag's entries, newest first |
| `AuditRepository.CreateThenListByFlag` | repository/audit_repository.go:26-48 | a new entry heads its own flag's trail; every other flag's trail is unchanged |
| `AuditRepository.NewestFirstOrdersLog` | repository/audit_repository.go:52-55 | newest first over the whole table: the same entries as often as stored, ids strictly decreasing |
| `AuditRepository.ListAllAuditLogs` | repository/audit_repository.go:50-63 | an error exactly for a negative limit or offset; otherwise min(limit, entries past offset) entries, the offset-th newest first |
| `AuditRepository.PagesConcatenate` | repository/audit_repository.go:50-63 | a page of a entries followed by the next page of b is the page of a+b |
| `ServiceState.Record` | service/flag_service.go:115-118 | appends one entry with the given fields; flags untouched |
| `ServiceState.WithStatus` | service/flag_service.go:163 | only the row's status changes; the enabled set gains or loses exactly that id |
| `Cascades.Cascade` | service/flag_service.go:314-352 | terminates; keeps rows, names and edges; only disables; the old log is a prefix; exactly one new entry per flag it disabled, no flag named twice |
| `Cascades.CascadeStep` | service/flag_service.go:328-342 | disables exactly that dependent and records a cascade_disable entry by "system" naming the parent |
| `Cascades.CascadeReasonNamesParent` | service/flag_service.go:337 | the cascade reason names the parent: different parents give different reasons |
| `Cascades.CascadeOver` | service/flag_service.go:320-349 | the loop over the dependents list keeps what Cascade keeps, including exactly one new entry per flag disabled |
| `Cascades.CascadeSupport` | service/flag_service.go:314-352 | no edge goes from enabled to not enabled unless it already did; no direct dependent of the root is left enabled |
| `Cascades.CascadeOverSupport` | service/flag_service.go:320-349 | the loop creates no enabled-on-disabled edge and leaves every listed dependent not enabled |
| `Cascades.CascadeReach` | service/flag_service.go:314-352 | every flag the cascade disables reaches the root along a chain whose flags before the root were all enabled at the start (so, in particular, depends on the root) |
| `Cascades.CascadeOverReach` | service/flag_service.go:320-349 | the loop disables only flags that reach the parent through flags enabled at its start |
| `Cascades.ThroughRootEndsDisabled` | service/flag_service.go:320-345 | a flag reaching the root through flags enabled at the start ends disabled |
| `Cascades.CascadeDisablesExactly` | service/flag_service.go:314-352 | the flags a cascade disables are exactly those that reach its root through flags enabled at the start |
| `Cascades.CascadeAudit` | service/flag_service.go:335-340 | every new entry is a cascade_disable by "system" for a flag the cascade disabled, whose reason names a flag it depends on that is the root or a flag this cascade disabled |
| `Cascades.CascadeOverAudit` | service/flag_service.go:335-340 | the loop's new entries are such cascade entries, each reason naming the parent or a flag the loop disabled |
| `FlagService.FirstMissing` | service/flag_service.go:284-292 | none exactly when every id has a row; otherwise the first position without one |
| `FlagService.ValidateDependenciesExist` | service/flag_service.go:283-294 | nil exactly when every id has a row; otherwise "not found" for the first missing id |
| `FlagService.DependencyNotFoundTextNamesId` | service/flag_service.go:288 | the "dependency flag with ID %d not found" text determines the id |
| `FlagService.DisabledPositions` | service/flag_service.go:300-308 | ascending positions of exactly the ids whose flag is disabled |
| `FlagService.GetMissingActiveDependencies` | service/flag_service.go:297-311 | fails exactly when some id has no row (naming the first); otherwise the names of the disabled ones in list order |
| `FlagService.NoMissingIffAllEnabled` | service/flag_service.go:152 | nothing is missing exactly when every dependency is enabled |
| `FlagService.AddDependencies` | service/flag_service.go:104-110 | adds exactly one edge from the flag to each listed id |
| `FlagService.CreateChecks` | service/flag_service.go:57-84 | passes exactly for a valid request and actor, existing dependencies and no reported cycle; request errors come before actor errors; the first missing id gives DependencyNotFound for that id; the cycle error only once every dependency exists |
| `FlagService.CreateFlag` | service/flag_service.go:56-122 | succeeds exactly when the checks pass and the name is free; failure changes nothing; success gives a fresh disabled flag with the requested name and dependencies, exactly those new edges, and one "create" entry |
| `FlagService.TargetChecks` | service/flag_service.go:125-139 | passes exactly for a positive id, a valid actor and an existing flag, with the matching error otherwise |
| `FlagService.ActiveIffListedEnabled` | service/flag_service.go:147-148 | every direct dependency is enabled exactly when every listed dependency is |
| `FlagService.ActiveDependencyCheck` | service/flag_service.go:146-160 | passes exactly when every direct dependency exists and is enabled; otherwise the lookup failure for the first dependency without a row, or the non-empty missing list |
| `FlagService.MissingDependencyCheck` | service/flag_service.go:148-159 | passes exactly when every id is enabled; otherwise the lookup failure for the first id without a row, or "Missing active dependencies" with the missing names |
| `FlagService.EnableFlag` | service/flag_service.go:124-176 | succeeds exactly when the checks pass and the flag is enabled already or all its direct dependencies are; a no-op if already enabled; on a disabled flag the outcome is ActiveDependencyCheck's (the names of the disabled dependencies in ascending id, or the failed lookup); on success only its status changes and one "enable" entry is added; failure changes nothing |
| `FlagService.DisableStep` | service/flag_service.go:200-210 | the flag leaves the enabled set and one "disable" entry is added |
| `FlagService.DisableFlag` | service/flag_service.go:178-220 | succeeds exactly when the checks pass; afterwards the flag is disabled and nothing is newly enabled; a no-op if already disabled; otherwise the "disable" entry comes first |
| `FlagService.ToggleFlag` | service/flag_service.go:222-231 | an invalid reason fails first and changes nothing; otherwise the call is EnableFlag when enable is asked and DisableFlag when not, with the same actor and reason |
| `FlagService.ToggleIdempotent` | service/flag_service.go:222-231 | repeating a successful toggle succeeds and changes nothing |
| `FlagService.GetFlag` | service/flag_service.go:233-247 | an invalid id or unknown flag fails as such; otherwise the flag with exactly its dependencies |
| `FlagService.ListFlags` | service/flag_service.go:249-257 | every flag once, sorted by name, each as GetFlag returns it |
| `FlagService.GetFlagAuditLogs` | service/flag_service.go:259-280 | an invalid id or unknown flag fails as such; otherwise exactly the flag's entries, newest first |
| `EngineInvariant.DisabledRootClosure` | service/flag_service.go:313-352 | with no enabled-on-disabled edge, everything depending on a disabled flag is disabled |
| `EngineInvariant.CreatePreserves` | service/flag_service.go:56-122 | create keeps edges and entries closed, the graph acyclic and no enabled-on-disabled edge |
| `EngineInvariant.CreateNeverReportsCycle` | service/flag_service.go:75-83 | with closed edges, create never fails with CircularDependency |
| `EngineInvariant.CreatedFlagReadsBack` | service/flag_service.go:102-112 | the created flag reads back disabled, with its name and exactly the requested dependencies |
| `EngineInvariant.CreatedFlagAuditTrail` | service/flag_service.go:114-118 | the created flag's audit trail is its single "create" entry |
| `EngineInvariant.EnablePreserves` | service/flag_service.go:124-176 | enable keeps the whole invariant |
| `EngineInvariant.DisablePreserves` | service/flag_service.go:178-220 | disable with its cascade keeps the whole invariant |
| `EngineInvariant.DisableReachesAllDependents` | service/flag_service.go:212-216 | after a disable every transitive dependent is disabled |
| `EngineInvariant.DisableOnlyDependents` | service/flag_service.go:178-220 | a disable switches off only the flag and flags that depend on it |
| `EngineInvariant.DisableAuditTrail` | service/flag_service.go:206-216 | after the "disable" entry come only cascade entries, exactly one per flag the cascade disabled, no flag named twice, each reason naming the disabled flag or a flag the cascade switched off |
| `EngineInvariant.TogglePreserves` | service/flag_service.go:222-231 | toggle keeps the whole invariant |

## Left out

- SQL, the HTTP handlers and controllers, configuration, logging and the command entry point are not modelled. The tables are modelled by their contents and the queries by their results.
- Store failures are not modelled: connection errors, failed scans, failed audit inserts, and a failed dependents lookup in the cascade. So the service's "failed to …" wrapped errors, and the cascade's skip-on-error branches for failed reads and writes, have no counterpart. The skip for a dependent that no longer exists or is not enabled is modelled.
- Concurrency, transactions and context cancellation are not modelled. Each operation is one atomic step on the state, so create's edges and row appear together.
- Timestamps are not modelled: created_at and updated_at, and time.Now in NewAuditLog. Creation time is represented by position in the audit log. Entries with equal timestamps, which PostgreSQL may return in either order, are therefore not modelled.
- `FlagEntity.ParseStatus`: the status column is modelled as two-valued, so the model cannot represent any other stored text.
- `FlagRepository.ListFlags`: ORDER BY name is modelled as code-point order (the "C" collation). Other database collations are not modelled.
- `FlagRepository.GetFlagByName`: a name lookup is modelled on the unique-name table, so it returns the only match.
- go-playground's validator internals are not modelled. Field error names are modelled for the top-level struct fields ("Name", "Reason", "Dependencies[i]"), with its `min`/`max` lengths counted in characters.
- `FlagEntity.RemoveDependency`: Go's `append(deps[:i], deps[i+1:]...)` shifts the caller's backing array in place. The model returns a fresh sequence, so that aliasing is not modelled. Nothing else in the core calls `RemoveDependency`.
- `DependencyError.Error` is modelled as `FlagService.DependencyErrorText` and the other service errors as `FlagService.ServiceErrorText`. Of their texts, only the dependency id in the "not found" text carries a proved property (`FlagService.DependencyNotFoundTextNamesId`). The "failed to …" texts for store failures are not modelled, since store failures are not.
- `ValidationErrors.Error` is modelled for its text only. `formatValidationErrors`'s fallback "Invalid value" cannot arise from the tags used, so it is not modelled.
- `Validator.ValidateActor`: the message says "characters" while Go's `len` counts bytes. The model follows the byte count.
- Integer width: ids are unbounded integers. The int64 serial and the `int` limit and offset never overflow in the model.
