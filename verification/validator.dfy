/** Input validation for the flag service: the struct tags of the request types
    (`required`, `flag_name`, `min`, `max`, `dive,gt=0`) read as predicates, the
    standalone validators, and the rendering of field errors. */
module Validator {
  import opened Results
  import opened Text
  import opened Sequences

  /** One failed tag on one field. */
  datatype FieldError = FieldError(field: string, message: string)

  /** Why validation failed: the field errors of a request, or the message of a
      standalone validator. */
  datatype ValidationFailure = FieldErrors(errors: seq<FieldError>) | Message(text: string)

  datatype FlagCreateRequest = FlagCreateRequest(name: string, dependencies: seq<int>)

  datatype FlagToggleRequest = FlagToggleRequest(enable: bool, reason: string)

  const RequiredMessage := "This field is required"
  const FlagNameMessage := "Flag name must contain only alphanumeric characters, underscores, and hyphens, and cannot start or end with underscore or hyphen"

  function MinMessage(n: nat): string {
    "Must be at least " + Decimal(n) + " characters long"
  }

  function MaxMessage(n: nat): string {
    "Must be at most " + Decimal(n) + " characters long"
  }

  function GreaterThanMessage(n: int): string {
    "Must be greater than " + IntText(n)
  }

  const FlagIdMessage := "flag ID must be greater than 0"
  const ActorRequiredMessage := "actor is required"
  const ActorTooLongMessage := "actor name too long (max 100 characters)"
  const DependencyIdsMessage := "dependency IDs must be greater than 0"

  const NameMinLength := 3
  const NameMaxLength := 100
  const ReasonMinLength := 3
  const ReasonMaxLength := 500
  const ActorMaxBytes := 100

  // ---- flag_name ----

  predicate IsFlagNameChar(c: char) {
    ('a' <= c <= 'z') || ('A' <= c <= 'Z') || ('0' <= c <= '9') || c == '_' || c == '-'
  }

  predicate IsSeparator(c: char) {
    c == '_' || c == '-'
  }

  /** The character loop of the `flag_name` check. */
  predicate AllFlagNameChars(s: string)
    ensures AllFlagNameChars(s) <==> forall i :: 0 <= i < |s| ==> IsFlagNameChar(s[i])
    decreases |s|
  {
    |s| == 0 || (IsFlagNameChar(s[0]) && AllFlagNameChars(s[1..]))
  }

  /** The custom `flag_name` tag: only letters, digits, '_' and '-', and no '_'
      or '-' at either end. The empty name passes this tag on its own. */
  predicate ValidFlagName(name: string)
    ensures ValidFlagName(name) <==>
      (forall i :: 0 <= i < |name| ==> IsFlagNameChar(name[i])) &&
      (|name| > 0 ==> !IsSeparator(name[0]) && !IsSeparator(name[|name| - 1]))
  {
    HasPrefixChar(name, '_');
    HasPrefixChar(name, '-');
    HasSuffixChar(name, '_');
    HasSuffixChar(name, '-');
    AllFlagNameChars(name)
    && !HasPrefix(name, "_") && !HasPrefix(name, "-")
    && !HasSuffix(name, "_") && !HasSuffix(name, "-")
  }

  // ---- FlagCreateRequest ----

  /** The Name field's tags `required,flag_name,min=3,max=100`, checked in that
      order; the first one that fails is the field's only error. Lengths are in
      characters. */
  function NameError(name: string): (r: Option<FieldError>)
    ensures r.None? <==> name != "" && ValidFlagName(name) && NameMinLength <= |name| <= NameMaxLength
    ensures r.Some? ==> r.value.field == "Name"
  {
    if name == "" then Some(FieldError("Name", RequiredMessage))
    else if !ValidFlagName(name) then Some(FieldError("Name", FlagNameMessage))
    else if |name| < NameMinLength then Some(FieldError("Name", MinMessage(NameMinLength)))
    else if |name| > NameMaxLength then Some(FieldError("Name", MaxMessage(NameMaxLength)))
    else None
  }

  /** The indices of the non-positive ids, ascending. */
  function NonPositivePositions(ids: seq<int>): (r: seq<int>)
    ensures Increasing(r)
    ensures forall j :: 0 <= j < |r| ==> 0 <= r[j] < |ids|
    ensures forall i :: 0 <= i < |ids| ==> (i in r <==> ids[i] <= 0)
    decreases |ids|
  {
    if |ids| == 0 then []
    else
      var init := NonPositivePositions(ids[..|ids| - 1]);
      var last := |ids| - 1;
      assert forall i :: 0 <= i < last ==> ids[..last][i] == ids[i];
      init + (if ids[last] <= 0 then [last] else [])
  }

  /** The error `dive,gt=0` reports for element i. */
  function ElementError(i: int): FieldError {
    FieldError("Dependencies[" + IntText(i) + "]", GreaterThanMessage(0))
  }

  /** The Dependencies field's `dive,gt=0`: one error per non-positive id, in
      index order, naming the index. */
  function DependencyErrors(ids: seq<int>): (r: seq<FieldError>)
    ensures |r| == |NonPositivePositions(ids)|
    ensures forall j :: 0 <= j < |r| ==> r[j] == ElementError(NonPositivePositions(ids)[j])
    decreases |ids|
  {
    if |ids| == 0 then []
    else
      var last := |ids| - 1;
      DependencyErrors(ids[..last]) + (if ids[last] <= 0 then [ElementError(last)] else [])
  }

  /** What the struct tags of a create request demand. */
  ghost predicate ValidCreateRequest(req: FlagCreateRequest) {
    && req.name != ""
    && ValidFlagName(req.name)
    && NameMinLength <= |req.name| <= NameMaxLength
    && forall i :: 0 <= i < |req.dependencies| ==> req.dependencies[i] > 0
  }

  /** The `dive,gt=0` tag reports nothing exactly when every id is positive. */
  lemma NoDependencyErrorsIff(ids: seq<int>)
    ensures DependencyErrors(ids) == [] <==> forall i :: 0 <= i < |ids| ==> ids[i] > 0
  {
    var bad := NonPositivePositions(ids);
    if |bad| > 0 {
      var i := bad[0];
      assert i in bad;
    }
  }

  /** All field errors of a create request: Name's first, then one per bad dependency. */
  function CreateRequestErrors(req: FlagCreateRequest): (r: seq<FieldError>)
    ensures r == [] <==> ValidCreateRequest(req)
  {
    NoDependencyErrorsIff(req.dependencies);
    (match NameError(req.name) case Some(e) => [e] case None => []) + DependencyErrors(req.dependencies)
  }

  /** The field errors come in struct field order: the Name error, if any, first,
      then every dependency error in index order, and nothing else. */
  lemma CreateRequestErrorsInFieldOrder(req: FlagCreateRequest)
    ensures var r := CreateRequestErrors(req);
      var d := DependencyErrors(req.dependencies);
      && |r| == (if NameError(req.name).Some? then 1 else 0) + |d|
      && (NameError(req.name).Some? ==> r[0] == NameError(req.name).value)
      && r[|r| - |d|..] == d
  {
  }

  /** `ValidateFlagCreateRequest`: nil exactly when every tag holds; otherwise all
      the field errors. */
  function ValidateFlagCreateRequest(req: FlagCreateRequest): (r: Outcome<ValidationFailure>)
    ensures r.Pass? <==> ValidCreateRequest(req)
    ensures r.Fail? ==> r.error == FieldErrors(CreateRequestErrors(req)) && |r.error.errors| > 0
  {
    var errors := CreateRequestErrors(req);
    if |errors| == 0 then Pass else Fail(FieldErrors(errors))
  }

  // ---- FlagToggleRequest ----

  /** The Reason field's tags `required,min=3,max=500`; `Enable` has none. */
  function ReasonError(reason: string): (r: Option<FieldError>)
    ensures r.None? <==> reason != "" && ReasonMinLength <= |reason| <= ReasonMaxLength
    ensures r.Some? ==> r.value.field == "Reason"
  {
    if reason == "" then Some(FieldError("Reason", RequiredMessage))
    else if |reason| < ReasonMinLength then Some(FieldError("Reason", MinMessage(ReasonMinLength)))
    else if |reason| > ReasonMaxLength then Some(FieldError("Reason", MaxMessage(ReasonMaxLength)))
    else None
  }

  /** `ValidateFlagToggleRequest`: nil exactly when the reason is 3 to 500
      characters long, whatever `Enable` says. */
  function ValidateFlagToggleRequest(req: FlagToggleRequest): (r: Outcome<ValidationFailure>)
    ensures r.Pass? <==> ReasonMinLength <= |req.reason| <= ReasonMaxLength
    ensures r.Fail? ==> r.error.FieldErrors? && |r.error.errors| == 1 && r.error.errors[0].field == "Reason"
  {
    match ReasonError(req.reason)
    case Some(e) => Fail(FieldErrors([e]))
    case None => Pass
  }

  // ---- standalone validators ----

  function ValidateFlagID(id: int): (r: Outcome<ValidationFailure>)
    ensures r.Pass? <==> id > 0
    ensures r.Fail? ==> r.error == Message(FlagIdMessage)
  {
    if id <= 0 then Fail(Message(FlagIdMessage)) else Pass
  }

  /** `ValidateActor`: the length limit is on UTF-8 bytes (Go's `len`). */
  function ValidateActor(actor: string): (r: Outcome<ValidationFailure>)
    ensures r.Pass? <==> actor != "" && Utf8Length(actor) <= ActorMaxBytes
    ensures actor == "" ==> r == Fail(Message(ActorRequiredMessage))
    ensures Utf8Length(actor) > ActorMaxBytes ==> r == Fail(Message(ActorTooLongMessage))
  {
    if actor == "" then Fail(Message(ActorRequiredMessage))
    else if Utf8Length(actor) > ActorMaxBytes then Fail(Message(ActorTooLongMessage))
    else Pass
  }

  /** An ASCII actor of 1 to 100 characters is accepted; a multi-byte actor can be
      refused with fewer than 100 characters. */
  lemma AsciiActorAccepted(actor: string)
    requires IsAscii(actor) && 0 < |actor| <= ActorMaxBytes
    ensures ValidateActor(actor).Pass?
  {
    AsciiUtf8Length(actor);
  }

  /** `ValidateDependencies`: the loop stops at the first id <= 0. */
  function ValidateDependencies(ids: seq<int>): (r: Outcome<ValidationFailure>)
    ensures r.Pass? <==> forall i :: 0 <= i < |ids| ==> ids[i] > 0
    ensures r.Fail? ==> r.error == Message(DependencyIdsMessage)
    decreases |ids|
  {
    if |ids| == 0 then Pass
    else if ids[0] <= 0 then Fail(Message(DependencyIdsMessage))
    else
      assert forall i :: 1 <= i < |ids| ==> ids[1..][i - 1] == ids[i];
      ValidateDependencies(ids[1..])
  }

  /** The standalone dependency validator and the `dive,gt=0` tag agree. */
  lemma DependencyValidatorsAgree(ids: seq<int>)
    ensures ValidateDependencies(ids).Pass? <==> DependencyErrors(ids) == []
  {
    NoDependencyErrorsIff(ids);
  }

  // ---- ValidationErrors.Error ----

  function ErrorLine(e: FieldError): string {
    e.field + ": " + e.message
  }

  function ErrorLines(errors: seq<FieldError>): (r: seq<string>)
    ensures |r| == |errors|
    ensures forall i :: 0 <= i < |r| ==> r[i] == ErrorLine(errors[i])
  {
    if |errors| == 0 then [] else [ErrorLine(errors[0])] + ErrorLines(errors[1..])
  }

  /** `ValidationErrors.Error`: "Field: Message" per error, joined by ", ". */
  function ErrorText(errors: seq<FieldError>): (r: string)
    ensures r == "" <==> |errors| == 0
    ensures |errors| == 1 ==> r == ErrorLine(errors[0])
    ensures |errors| > 0 ==> |ErrorLine(errors[0])| <= |r| && r[..|ErrorLine(errors[0])|] == ErrorLine(errors[0])
  {
    Join(ErrorLines(errors), ", ")
  }

  /** One more error adds ", " and its line at the end. */
  lemma ErrorTextSnoc(errors: seq<FieldError>, e: FieldError)
    requires |errors| > 0
    ensures ErrorText(errors + [e]) == ErrorText(errors) + ", " + ErrorLine(e)
  {
    assert ErrorLines(errors + [e]) == ErrorLines(errors) + [ErrorLine(e)];
    JoinSnoc(ErrorLines(errors), ErrorLine(e), ", ");
  }

  /** The text of any validation failure. */
  function FailureText(f: ValidationFailure): string {
    match f
    case FieldErrors(errors) => ErrorText(errors)
    case Message(text) => text
  }
}
