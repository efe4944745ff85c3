/**
 * Building an accepted command's audit event and delivery record, and
 * recovering the delivery record from the audit event after a crash.
 *
 * The audit vocabulary has no `force_stop`, so such a command is audited as a
 * `stop` whose reason carries a reserved marker or prefix.
 */
module Envelope {
  import opened Common
  import Inbox
  import Fingerprint

  const FORCE_STOP_AUDIT_MARKER: string := "apex.force_stop"
  const FORCE_STOP_AUDIT_PREFIX: string := "apex.force_stop:"
  const CONTROL_EVENT: nat := 9

  datatype Action = Unspecified | Stop | Pause | Resume | Inject | SetBudget | ResolveHold | ForceStop

  datatype CommandError = ScopeDenied | InvalidCommand | Rejected | Internal

  type Params = seq<Fingerprint.Entry>

  datatype Input = Input(
    workspaceId: string,
    namespaceId: string,
    agentId: string,
    runId: string,
    parentRunId: Option<string>,
    traceId: string,
    action: Action,
    reasonCode: Option<string>,
    parameters: Option<Params>)

  /** The event written to the outbox, as far as recovery and audit read it. */
  datatype Event = Event(
    eventId: string,
    timestamp: string,
    kind: nat,
    agentId: string,
    runId: string,
    parentRunId: Option<string>,
    traceId: string,
    scope: Option<Inbox.Scope>,
    operator: string,
    data: Option<map<string, Fingerprint.Value>>)

  datatype Accepted = Accepted(commandId: string, event: Event, delivery: Inbox.Command)

  function ActionName(a: Action): Option<string> {
    match a
    case Unspecified => None
    case Stop => Some("stop")
    case Pause => Some("pause")
    case Resume => Some("resume")
    case Inject => Some("inject")
    case SetBudget => Some("set_budget")
    case ResolveHold => Some("resolve_hold")
    case ForceStop => Some("force_stop")
  }

  function ReasonValue(reason: Option<string>): Fingerprint.Value {
    if reason.Some? then Fingerprint.Text(reason.value) else Fingerprint.Null(0)
  }

  /** The data object of a control event. */
  function ControlData(action: string, reason: Option<string>, parameters: Option<Params>)
    : map<string, Fingerprint.Value>
  {
    map["action" := Fingerprint.Text(action),
        "enforcement" := Fingerprint.Text("cooperative"),
        "reason_code" := ReasonValue(reason),
        "parameters" := Fingerprint.Struct(Fingerprint.OrEmpty(parameters))]
  }

  /** The action and reason the audit event carries. */
  function AuditAction(name: string): string {
    if name == "force_stop" then "stop" else name
  }

  function AuditReason(name: string, reason: Option<string>): Option<string> {
    if name != "force_stop" then reason
    else if reason.Some? then Some(FORCE_STOP_AUDIT_PREFIX + reason.value)
    else Some(FORCE_STOP_AUDIT_MARKER)
  }

  function ControlEvent(input: Input, name: string, commandId: string, timestamp: string, operator: string): Event {
    Event(
      commandId, timestamp, CONTROL_EVENT, input.agentId, input.runId, input.parentRunId, input.traceId,
      Some(Inbox.Scope(input.workspaceId, input.namespaceId)), operator,
      Some(ControlData(AuditAction(name), AuditReason(name, input.reasonCode), input.parameters)))
  }

  /**
   * `resolved` is the validated command id with its timestamp; `encode` is the
   * protobuf encoding of a parameter object; `valid` the ingest admission gate.
   */
  function BuildControlRequest(
    input: Input, scopeAllowed: bool, resolved: Result<(string, string), CommandError>, operator: string,
    encode: Params -> string, valid: Event -> bool): Result<Accepted, CommandError>
  {
    if !scopeAllowed then Err(ScopeDenied)
    else if ActionName(input.action).None? then Err(InvalidCommand)
    else if resolved.Err? then Err(resolved.error)
    else
      var name := ActionName(input.action).value;
      var (commandId, timestamp) := resolved.value;
      var delivery := Inbox.Command(
        commandId, input.workspaceId, input.namespaceId, input.agentId, input.runId, input.traceId,
        name, input.reasonCode,
        if input.parameters.Some? then encode(input.parameters.value) else "",
        timestamp, 0);
      var event := ControlEvent(input, name, commandId, timestamp, operator);
      if valid(event) then Ok(Accepted(commandId, event, delivery)) else Err(Rejected)
  }

  /** The seven names on the wire, written out. */
  predicate IsNamed(a: Action, name: string) {
    && (a.Stop? <==> name == "stop")
    && (a.Pause? <==> name == "pause")
    && (a.Resume? <==> name == "resume")
    && (a.Inject? <==> name == "inject")
    && (a.SetBudget? <==> name == "set_budget")
    && (a.ResolveHold? <==> name == "resolve_hold")
    && (a.ForceStop? <==> name == "force_stop")
  }

  lemma ActionIsNamed(a: Action)
    requires ActionName(a).Some?
    ensures IsNamed(a, ActionName(a).value)
  {
    assert |"force_stop"| == 10 && |"stop"| == 4 && |"pause"| == 5 && |"resume"| == 6 && |"inject"| == 6;
    assert "resume"[0] == 'r' && "inject"[0] == 'i' && |"resolve_hold"| == 12;
    assert |"set_budget"| == 10 && "set_budget"[0] == 's' && "force_stop"[0] == 'f';
  }

  /** What the agent's side reads the stored name as. */
  function ActionFromName(name: string): Action {
    if name == "stop" then Stop
    else if name == "pause" then Pause
    else if name == "resume" then Resume
    else if name == "inject" then Inject
    else if name == "set_budget" then SetBudget
    else if name == "resolve_hold" then ResolveHold
    else if name == "force_stop" then ForceStop
    else Unspecified
  }

  /** Naming an action and reading the name back are inverse to each other. */
  lemma ActionNamesRoundTrip(a: Action, name: string)
    ensures ActionName(a).Some? <==> !a.Unspecified?
    ensures ActionName(a).Some? ==> ActionFromName(ActionName(a).value) == a
    ensures !ActionFromName(name).Unspecified? ==> ActionName(ActionFromName(name)) == Some(name)
  {
    if ActionName(a).Some? {
      ActionIsNamed(a);
    }
  }

  /** The delivery record says what the operator submitted. */
  ghost predicate DeliveryCarries(
    d: Inbox.Command, input: Input, commandId: string, timestamp: string, encode: Params -> string)
  {
    && d.commandId == commandId && d.issuedAt == timestamp
    && d.workspaceId == input.workspaceId && d.namespaceId == input.namespaceId
    && d.agentId == input.agentId && d.runId == input.runId && d.traceId == input.traceId
    && IsNamed(input.action, d.action)
    && d.reasonCode == input.reasonCode
    && d.parameters == (if input.parameters.Some? then encode(input.parameters.value) else "")
    && d.deliveryAttempt == 0
  }

  /** The audit reason of a `force_stop`, written out; any other action keeps its own. */
  function AuditedReason(input: Input): Option<string> {
    if !input.action.ForceStop? then input.reasonCode
    else if input.reasonCode.None? then Some("apex.force_stop")
    else Some("apex.force_stop:" + input.reasonCode.value)
  }

  /** And so does the audit event. */
  ghost predicate EventCarries(e: Event, input: Input, commandId: string, timestamp: string, operator: string) {
    && e.kind == 9 && e.eventId == commandId && e.timestamp == timestamp && e.operator == operator
    && e.scope == Some(Inbox.Scope(input.workspaceId, input.namespaceId))
    && e.agentId == input.agentId && e.runId == input.runId
    && e.parentRunId == input.parentRunId && e.traceId == input.traceId
    && e.data.Some? && "enforcement" in e.data.value
    && e.data.value["enforcement"] == Fingerprint.Text("cooperative")
    && var d := ReadControlData(e.data.value);
       && d.Some?
       && IsNamed(if input.action.ForceStop? then Stop else input.action, d.value.0)
       && d.value.1 == AuditedReason(input)
       && d.value.2 == Fingerprint.OrEmpty(input.parameters)
  }

  /**
   * Every accepted command: the delivery record and the audit event carry
   * exactly what was submitted, and the agent reads back the submitted action.
   */
  lemma AcceptedCarriesTheInput(
    input: Input, scopeAllowed: bool, resolved: Result<(string, string), CommandError>, operator: string,
    encode: Params -> string, valid: Event -> bool)
    requires BuildControlRequest(input, scopeAllowed, resolved, operator, encode, valid).Ok?
    ensures var a := BuildControlRequest(input, scopeAllowed, resolved, operator, encode, valid).value;
            && scopeAllowed && resolved.Ok? && a.commandId == resolved.value.0 && valid(a.event)
            && DeliveryCarries(a.delivery, input, resolved.value.0, resolved.value.1, encode)
            && EventCarries(a.event, input, resolved.value.0, resolved.value.1, operator)
            && ActionFromName(a.delivery.action) == input.action
  {
    ActionIsNamed(input.action);
    ActionNamesRoundTrip(input.action, "");
    AuditIsNamed(input);
  }

  lemma AuditIsNamed(input: Input)
    requires ActionName(input.action).Some?
    ensures var name := ActionName(input.action).value;
            && IsNamed(if input.action.ForceStop? then Stop else input.action, AuditAction(name))
            && AuditReason(name, input.reasonCode) == AuditedReason(input)
  {
    ActionIsNamed(input.action);
    ActionIsNamed(Stop);
  }

  /** The refusals, in order: scope, action, command id, ingest; with all of them passed it is accepted. */
  lemma RefusedInOrder(
    input: Input, scopeAllowed: bool, resolved: Result<(string, string), CommandError>, operator: string,
    encode: Params -> string, valid: Event -> bool)
    ensures var r := BuildControlRequest(input, scopeAllowed, resolved, operator, encode, valid);
            if !scopeAllowed then r == Err(ScopeDenied)
            else if input.action.Unspecified? then r == Err(InvalidCommand)
            else if resolved.Err? then r == Err(resolved.error)
            else
              var event := ControlEvent(
                input, ActionName(input.action).value, resolved.value.0, resolved.value.1, operator);
              if valid(event) then r.Ok? && r.value.event == event else r == Err(Rejected)
  {
  }

  // ----------------------------------------------------------------- recovery

  predicate HasPrefix(s: string, p: string) {
    |p| <= |s| && s[..|p|] == p
  }

  /** Undoes the audit substitution. */
  function TrueAction(action: string, reason: Option<string>): (string, Option<string>) {
    if action == "stop" && reason == Some(FORCE_STOP_AUDIT_MARKER) then ("force_stop", None)
    else if action == "stop" && reason.Some? && HasPrefix(reason.value, FORCE_STOP_AUDIT_PREFIX)
    then ("force_stop", Some(reason.value[|FORCE_STOP_AUDIT_PREFIX|..]))
    else (action, reason)
  }

  /** The action, reason and parameters a stored data object carries, if it has the shape of one. */
  function ReadControlData(data: map<string, Fingerprint.Value>): Option<(string, Option<string>, Params)> {
    if "action" !in data || !data["action"].Text? then None
    else if "reason_code" in data && !data["reason_code"].Text? && !data["reason_code"].Null?
            && !data["reason_code"].Unset? then None
    else if "parameters" !in data || !data["parameters"].Struct? then None
    else
      var reason := if "reason_code" in data && data["reason_code"].Text?
                    then Some(data["reason_code"].text) else None;
      Some((data["action"].text, reason, data["parameters"].entries))
  }

  /** `decoded` is the stored envelope, if its bytes decode at all. */
  function PendingFromEvent(decoded: Option<Event>, encode: Params -> string): Result<Inbox.Command, CommandError> {
    if decoded.None? || decoded.value.kind != CONTROL_EVENT || decoded.value.data.None? then Err(Internal)
    else
      var e := decoded.value;
      var data := ReadControlData(e.data.value);
      if data.None? || e.scope.None? then Err(Internal)
      else
        var (action, reasonCode) := TrueAction(data.value.0, data.value.1);
        Ok(Inbox.Command(
          e.eventId, e.scope.value.workspaceId, e.scope.value.namespaceId, e.agentId, e.runId, e.traceId,
          action, reasonCode, encode(data.value.2), e.timestamp, 0))
  }

  /** The four fields ingest demands, and nothing else; reading them back gives what was put in. */
  method BuildControlData(action: string, reason: Option<string>, parameters: Option<Params>)
    returns (fields: map<string, Fingerprint.Value>)
    ensures fields == ControlData(action, reason, parameters)
    ensures fields.Keys == {"action", "enforcement", "reason_code", "parameters"}
    ensures ReadControlData(fields) == Some((action, reason, Fingerprint.OrEmpty(parameters)))
  {
    fields := map[];
    fields := fields["action" := Fingerprint.Text(action)];
    fields := fields["enforcement" := Fingerprint.Text("cooperative")];
    fields := fields["reason_code" := ReasonValue(reason)];
    fields := fields["parameters" := Fingerprint.Struct(Fingerprint.OrEmpty(parameters))];
  }

  /** Recovery refuses exactly what is not a control event with a scope and readable data. */
  lemma RecoveryRefusesExactly(decoded: Option<Event>, encode: Params -> string)
    ensures PendingFromEvent(decoded, encode).Ok? <==>
            && decoded.Some? && decoded.value.kind == 9 && decoded.value.scope.Some? && decoded.value.data.Some?
            && var data := decoded.value.data.value;
               && "action" in data && data["action"].Text?
               && ("reason_code" in data ==>
                     data["reason_code"].Text? || data["reason_code"].Null? || data["reason_code"].Unset?)
               && "parameters" in data && data["parameters"].Struct?
    ensures PendingFromEvent(decoded, encode).Err? ==> PendingFromEvent(decoded, encode) == Err(Internal)
  {
  }

  /** A reason an operator's own `stop` must not use. */
  predicate Reserved(reason: Option<string>) {
    reason.Some? && (reason.value == FORCE_STOP_AUDIT_MARKER || HasPrefix(reason.value, FORCE_STOP_AUDIT_PREFIX))
  }

  /** Recovery sees the action and the reason that were submitted. */
  predicate Restored(name: string, reason: Option<string>) {
    TrueAction(AuditAction(name), AuditReason(name, reason)) == (name, reason)
  }

  lemma SubstitutionIsUndone(a: Action, reason: Option<string>)
    requires ActionName(a).Some?
    ensures Restored(ActionName(a).value, reason) <==> !(a.Stop? && Reserved(reason))
  {
  }

  /** What is left of a reserved reason once the marker or the prefix is taken off. */
  function Stripped(reason: string): Option<string>
    requires Reserved(Some(reason))
  {
    if reason == FORCE_STOP_AUDIT_MARKER then None else Some(reason[|FORCE_STOP_AUDIT_PREFIX|..])
  }

  /** What recovery makes of a command that was accepted with this delivery record. */
  function Recovered(action: Action, delivery: Inbox.Command): Inbox.Command {
    if action.Stop? && Reserved(delivery.reasonCode)
    then delivery.(action := "force_stop", reasonCode := Stripped(delivery.reasonCode.value))
    else delivery
  }

  /**
   * Recovery from the audit event of any accepted command gives back exactly
   * the delivery record of acceptance, except that a plain `stop` with a
   * reserved reason comes back as a `force_stop` with the reserved part removed.
   */
  lemma RecoveryYields(
    input: Input, scopeAllowed: bool, resolved: Result<(string, string), CommandError>, operator: string,
    encode: Params -> string, valid: Event -> bool)
    requires encode([]) == ""
    requires BuildControlRequest(input, scopeAllowed, resolved, operator, encode, valid).Ok?
    ensures var accepted := BuildControlRequest(input, scopeAllowed, resolved, operator, encode, valid).value;
            PendingFromEvent(Some(accepted.event), encode) == Ok(Recovered(input.action, accepted.delivery))
  {
  }

  /** It is the same record if and only if the command was not a plain `stop` with a reserved reason. */
  lemma RecoveryIsExact(
    input: Input, scopeAllowed: bool, resolved: Result<(string, string), CommandError>, operator: string,
    encode: Params -> string, valid: Event -> bool)
    requires encode([]) == ""
    requires BuildControlRequest(input, scopeAllowed, resolved, operator, encode, valid).Ok?
    ensures var accepted := BuildControlRequest(input, scopeAllowed, resolved, operator, encode, valid).value;
            PendingFromEvent(Some(accepted.event), encode) == Ok(accepted.delivery)
            <==> !(input.action.Stop? && Reserved(input.reasonCode))
  {
    RecoveryYields(input, scopeAllowed, resolved, operator, encode, valid);
    ActionIsNamed(input.action);
  }

  // ------------------------------------------------------------------ a witness

  /** The control-event rules that ingest applies to a data object, up to the parameters of the other actions. */
  predicate IngestAdmits(e: Event) {
    e.data.Some? && ControlDataAdmitted(e.data.value)
  }

  predicate ControlDataAdmitted(data: map<string, Fingerprint.Value>) {
    && data.Keys == {"action", "enforcement", "reason_code", "parameters"}
    && data["enforcement"] == Fingerprint.Text("cooperative")
    && var d := ReadControlData(data);
       && d.Some?
       && (d.value.0 == "stop" || d.value.0 == "pause" || d.value.0 == "resume" || d.value.0 == "inject"
           || d.value.0 == "set_budget" || d.value.0 == "resolve_hold")
       && (d.value.1.Some? ==> IsIdentifier(d.value.1.value))
       && (d.value.0 == "stop" || d.value.0 == "pause" || d.value.0 == "resume" ==> d.value.2 == [])
  }

  lemma ParameterlessStopIsAdmitted(e: Event, reason: string)
    requires e.data == Some(ControlData("stop", Some(reason), None)) && IsIdentifier(reason)
    ensures IngestAdmits(e)
  {
  }

  /**
   * The exception is real for every reserved reason that is an identifier: such
   * a parameterless `stop` passes ingest's own rules, is queued as a `stop`, and
   * is recovered as a `force_stop`.
   */
  lemma StopBecomesForceStop(
    input: Input, id: string, timestamp: string, operator: string, encode: Params -> string, reason: string)
    requires encode([]) == "" && input.action.Stop? && input.parameters.None?
    requires input.reasonCode == Some(reason) && Reserved(Some(reason)) && IsIdentifier(reason)
    ensures var accepted := BuildControlRequest(input, true, Ok((id, timestamp)), operator, encode, IngestAdmits);
            && accepted.Ok? && accepted.value.delivery.action == "stop"
            && PendingFromEvent(Some(accepted.value.event), encode)
               == Ok(accepted.value.delivery.(action := "force_stop", reasonCode := Stripped(reason)))
  {
    ParameterlessStopIsAdmitted(Event(
      id, timestamp, CONTROL_EVENT, input.agentId, input.runId, input.parentRunId, input.traceId,
      Some(Inbox.Scope(input.workspaceId, input.namespaceId)), operator,
      Some(ControlData("stop", Some(reason), None))), reason);
    RecoveryYields(input, true, Ok((id, timestamp)), operator, encode, IngestAdmits);
  }

  /** The marker itself is such a reason, with nothing left of it. */
  lemma MarkerIsSuchAReason(reason: string)
    requires reason == FORCE_STOP_AUDIT_MARKER
    ensures Reserved(Some(reason)) && Stripped(reason) == None && IsIdentifier(reason)
  {
    IdentifierByChars(reason);
  }

  /** So an accepted `stop` with reason `apex.force_stop` comes back as a `force_stop` without a reason. */
  lemma MarkedStopBecomesForceStop(
    input: Input, id: string, timestamp: string, operator: string, encode: Params -> string, reason: string)
    requires encode([]) == "" && input.action.Stop? && input.parameters.None?
    requires input.reasonCode == Some(reason) && reason == FORCE_STOP_AUDIT_MARKER
    ensures var accepted := BuildControlRequest(input, true, Ok((id, timestamp)), operator, encode, IngestAdmits);
            && accepted.Ok? && accepted.value.delivery.action == "stop"
            && PendingFromEvent(Some(accepted.value.event), encode)
               == Ok(accepted.value.delivery.(action := "force_stop", reasonCode := None))
  {
    MarkerIsSuchAReason(reason);
    StopBecomesForceStop(input, id, timestamp, operator, encode, reason);
  }
}
