/**
 * Rows of the durable command inbox and the SQL statements that change them.
 *
 * The table is a map from the `sequence` column to the row. A statement
 * `UPDATE ... WHERE p` is a map comprehension that rewrites every row meeting
 * `p`; `DELETE ... WHERE p` keeps the rows that do not meet it.
 */
module Inbox {
  import opened Common

  const I64_LIMIT: int := 0x8000_0000_0000_0000
  const U32_MAX: nat := 0xFFFF_FFFF
  const MAX_PARAMETER_BYTES: nat := 262_144
  const MAX_INBOX_CAPACITY: nat := 1_000_000

  const ACTION_NAMES: set<string> :=
    {"stop", "pause", "resume", "inject", "set_budget", "resolve_hold", "force_stop"}

  datatype Command = Command(
    commandId: string,
    workspaceId: string,
    namespaceId: string,
    agentId: string,
    runId: string,
    traceId: string,
    action: string,
    reasonCode: Option<string>,
    parameters: string,
    issuedAt: string,
    deliveryAttempt: nat)

  datatype Key = Key(workspaceId: string, namespaceId: string, commandId: string)

  datatype Scope = Scope(workspaceId: string, namespaceId: string)

  /** `command` is the semantic record: its attempt counter is always zero. */
  datatype Row = Row(
    command: Command,
    attempts: nat,
    lastDelivered: Option<int>,
    acknowledgedAt: Option<int>,
    cancelledAt: Option<int>)

  type Table = map<nat, Row>

  datatype RecordResult = Recorded | AlreadyRecorded
  datatype AckResult = Acknowledged | AlreadyAcknowledged | AckNotFound
  datatype CancelResult = Cancelled | AlreadyCancelled | CancelNotFound
  datatype InboxError = InvalidCommand | IdempotencyConflict | Capacity | AlreadyDelivered | Configuration | Internal

  datatype DeliveryStatus =
    | StatusPending
    | StatusDelivered
    | StatusExhausted
    | StatusAcknowledged
    | StatusCancelled

  /** What one poll asks for: the authenticated agent, the policy and the clock. */
  datatype Poll = Poll(agentId: string, maxAttempts: nat, redeliveryAfter: nat, now: nat)

  function KeyOf(c: Command): Key {
    Key(c.workspaceId, c.namespaceId, c.commandId)
  }

  function ScopeOf(c: Command): Scope {
    Scope(c.workspaceId, c.namespaceId)
  }

  /** Equal in everything an agent is meant to enact: every field but the attempt counter. */
  predicate SameFields(a: Command, b: Command) {
    && a.commandId == b.commandId
    && a.workspaceId == b.workspaceId
    && a.namespaceId == b.namespaceId
    && a.agentId == b.agentId
    && a.runId == b.runId
    && a.traceId == b.traceId
    && a.action == b.action
    && a.reasonCode == b.reasonCode
    && a.parameters == b.parameters
    && a.issuedAt == b.issuedAt
  }

  /** The key names this command. */
  predicate Names(key: Key, c: Command) {
    key.workspaceId == c.workspaceId && key.namespaceId == c.namespaceId && key.commandId == c.commandId
  }

  predicate SameName(a: Command, b: Command) {
    a.workspaceId == b.workspaceId && a.namespaceId == b.namespaceId && a.commandId == b.commandId
  }

  predicate InScope(c: Command, workspaceId: string, namespaceId: string) {
    c.workspaceId == workspaceId && c.namespaceId == namespaceId
  }

  /** Stands for `command_hash`, taken as collision free: the attempt counter is excluded. */
  function Semantic(c: Command): Command {
    c.(deliveryAttempt := 0)
  }

  /** Printable ASCII: no control byte and nothing above 0x7E. */
  predicate Printable(s: string) {
    s != [] ==> ' ' <= s[0] <= '~' && Printable(s[1..])
  }

  predicate IsRecordable(c: Command) {
    && IsIdentifier(c.workspaceId)
    && IsIdentifier(c.namespaceId)
    && IsIdentifier(c.agentId)
    && IsIdentifier(c.runId)
    && IsIdentifier(c.traceId)
    && IsIdentifier(c.commandId)
    && c.action in ACTION_NAMES
    && (c.reasonCode.Some? ==> IsIdentifier(c.reasonCode.value))
    && |c.issuedAt| <= 64
    && Printable(c.issuedAt)
    && |c.parameters| <= MAX_PARAMETER_BYTES
  }

  lemma {:induction false} PrintableExactly(s: string)
    ensures Printable(s) <==> forall i :: 0 <= i < |s| ==> 0x20 <= s[i] as int < 0x7F
  {
    if s != [] {
      var t := s[1..];
      PrintableExactly(t);
      assert forall i :: 0 <= i < |t| ==> t[i] == s[i + 1];
      if Printable(s) {
        forall i | 0 <= i < |s| ensures 0x20 <= s[i] as int < 0x7F {
          if i > 0 {
            assert s[i] == t[i - 1];
          }
        }
      }
    }
  }

  /** The recording grammar, written out. */
  lemma RecordableExactly(c: Command)
    ensures IsRecordable(c) <==>
            && IsIdentifier(c.commandId) && IsIdentifier(c.workspaceId) && IsIdentifier(c.namespaceId)
            && IsIdentifier(c.agentId) && IsIdentifier(c.runId) && IsIdentifier(c.traceId)
            && (c.reasonCode.None? || IsIdentifier(c.reasonCode.value))
            && (c.action == "stop" || c.action == "pause" || c.action == "resume" || c.action == "inject"
                || c.action == "set_budget" || c.action == "resolve_hold" || c.action == "force_stop")
            && |c.parameters| <= 256 * 1024
            && |c.issuedAt| <= 64 && (forall i :: 0 <= i < |c.issuedAt| ==> 0x20 <= c.issuedAt[i] as int < 0x7F)
  {
    PrintableExactly(c.issuedAt);
  }

  function ResolveDeliveryStatus(
    cancelled: bool, acknowledged: bool, attempts: nat, maxAttempts: nat): DeliveryStatus
  {
    if cancelled then StatusCancelled
    else if acknowledged then StatusAcknowledged
    else if attempts == 0 then StatusPending
    else if attempts >= maxAttempts then StatusExhausted
    else StatusDelivered
  }

  function StatusOf(r: Row, maxAttempts: nat): DeliveryStatus {
    ResolveDeliveryStatus(r.cancelledAt.Some?, r.acknowledgedAt.Some?, r.attempts, maxAttempts)
  }

  /** How far along its life a reported status is. */
  function Progress(s: DeliveryStatus): nat {
    match s
    case StatusPending => 0
    case StatusDelivered => 1
    case StatusExhausted => 2
    case StatusAcknowledged => 3
    case StatusCancelled => 3
  }

  /** The two terminal statuses are equally far along, so neither may turn into the other. */
  predicate Forward(a: DeliveryStatus, b: DeliveryStatus) {
    a == b || Progress(a) < Progress(b)
  }

  // ---------------------------------------------------------------- claim

  /** The WHERE clause of the claim scan, apart from the cursor. */
  predicate Eligible(r: Row, q: Poll) {
    && r.command.agentId == q.agentId
    && r.acknowledgedAt.None?
    && r.cancelledAt.None?
    && r.attempts < q.maxAttempts
    && (r.lastDelivered.None? || q.now - r.lastDelivered.value >= q.redeliveryAfter)
  }

  /** A row some other transaction holds locked is skipped, not waited for. */
  predicate Claimable(rows: Table, q: Poll, locked: set<nat>, s: nat) {
    s in rows && s !in locked && Eligible(rows[s], q)
  }

  /** Every claimable sequence strictly between `cursor` and `bound`, ascending. */
  function Scan(rows: Table, q: Poll, locked: set<nat>, cursor: nat, bound: nat): (ids: seq<nat>)
    ensures forall i :: 0 <= i < |ids| ==> cursor < ids[i] < bound && Claimable(rows, q, locked, ids[i])
    decreases bound - cursor
  {
    if cursor + 1 >= bound then []
    else
      var rest := Scan(rows, q, locked, cursor + 1, bound);
      if Claimable(rows, q, locked, cursor + 1) then [cursor + 1] + rest else rest
  }

  predicate MayRead(rows: Table, scopes: Scope -> bool, s: nat) {
    s in rows && scopes(ScopeOf(rows[s].command))
  }

  /** The rows of `ids` whose scope the caller's credential allows. */
  function Authorised(rows: Table, scopes: Scope -> bool, ids: seq<nat>): (r: seq<nat>)
    ensures forall i :: 0 <= i < |r| ==> r[i] in ids && MayRead(rows, scopes, r[i])
  {
    if ids == [] then []
    else
      var rest := Authorised(rows, scopes, ids[1..]);
      if MayRead(rows, scopes, ids[0]) then [ids[0]] + rest else rest
  }

  predicate Ascending(ids: seq<nat>) {
    forall i, j :: 0 <= i < j < |ids| ==> ids[i] < ids[j]
  }

  /** The simple form of a claim: the first `limit` claimable authorised rows in sequence order. */
  function ClaimIds(
    rows: Table, nextSeq: nat, q: Poll, locked: set<nat>, scopes: Scope -> bool, limit: nat): (ids: seq<nat>)
    ensures forall i :: 0 <= i < |ids| ==> Claimable(rows, q, locked, ids[i])
  {
    Take(Authorised(rows, scopes, Scan(rows, q, locked, 0, nextSeq)), limit)
  }

  /** `UPDATE ... SET attempts = attempts + 1, last_delivered_millis = now WHERE sequence = ANY(ids)`. */
  function Deliver(rows: Table, ids: seq<nat>, now: int): Table {
    map s | s in rows ::
      if s in ids then rows[s].(attempts := rows[s].attempts + 1, lastDelivered := Some(now)) else rows[s]
  }

  /** The command handed to the agent, stamped with the attempt it is. */
  function Handed(r: Row): Command {
    r.command.(deliveryAttempt := Min(r.attempts, U32_MAX))
  }

  function HandedAll(rows: Table, ids: seq<nat>): (cs: seq<Command>)
    requires forall i :: 0 <= i < |ids| ==> ids[i] in rows
    ensures |cs| == |ids|
    ensures forall i :: 0 <= i < |ids| ==> cs[i] == Handed(rows[ids[i]])
  {
    seq(|ids|, i requires 0 <= i < |ids| => Handed(rows[ids[i]]))
  }

  predicate AllRecordable(cs: seq<Command>) {
    forall i :: 0 <= i < |cs| ==> IsRecordable(cs[i])
  }

  /** The table after a claim. A stored row that is not recordable aborts the transaction. */
  function ClaimTable(
    rows: Table, nextSeq: nat, q: Poll, locked: set<nat>, scopes: Scope -> bool, limit: nat): Table
  {
    if q.now >= I64_LIMIT || q.redeliveryAfter >= I64_LIMIT then rows
    else
      var ids := ClaimIds(rows, nextSeq, q, locked, scopes, limit);
      var updated := Deliver(rows, ids, q.now);
      if AllRecordable(HandedAll(updated, ids)) then updated else rows
  }

  // ------------------------------------------- acknowledge, cancel, maintain

  predicate AckMatches(r: Row, key: Key, agentId: string, attempt: nat) {
    && KeyOf(r.command) == key
    && r.command.agentId == agentId
    && r.acknowledgedAt.None?
    && r.attempts >= attempt
  }

  function AckTable(rows: Table, key: Key, agentId: string, attempt: nat, now: nat): Table {
    if now >= I64_LIMIT then rows
    else
      map s | s in rows ::
        if AckMatches(rows[s], key, agentId, attempt) then rows[s].(acknowledgedAt := Some(now)) else rows[s]
  }

  predicate CancelMatches(r: Row, key: Key) {
    KeyOf(r.command) == key && r.cancelledAt.None? && r.attempts == 0
  }

  function CancelTable(rows: Table, key: Key, now: nat): Table {
    if now >= I64_LIMIT then rows
    else
      map s | s in rows ::
        if CancelMatches(rows[s], key) then rows[s].(cancelledAt := Some(now)) else rows[s]
  }

  /** The WHERE clause of the retention sweep. */
  predicate Retired(r: Row, now: int, retention: int, maxAttempts: nat) {
    || (r.cancelledAt.Some? && now - r.cancelledAt.value >= retention)
    || (&& r.cancelledAt.None?
        && (r.acknowledgedAt.Some? || r.attempts >= maxAttempts)
        && r.lastDelivered.Some?
        && now - r.lastDelivered.value >= retention)
  }

  function MaintainTable(rows: Table, now: nat, retention: nat, maxAttempts: nat): Table {
    if now >= I64_LIMIT || retention >= I64_LIMIT then rows
    else map s | s in rows && !Retired(rows[s], now, retention, maxAttempts) :: rows[s]
  }

  // --------------------------------------------------------------- record

  function NewRow(c: Command): Row {
    Row(Semantic(c), 0, None, None, None)
  }

  predicate HasKey(rows: Table, key: Key) {
    exists s :: s in rows && KeyOf(rows[s].command) == key
  }

  /** A row of this key stores exactly this command. */
  predicate StoresSame(rows: Table, c: Command) {
    exists s :: s in rows && KeyOf(rows[s].command) == KeyOf(c) && rows[s].command == Semantic(c)
  }

  function ScopeRows(rows: Table, scope: Scope): set<nat> {
    set s | s in rows && ScopeOf(rows[s].command) == scope
  }

  /** What a lookup of an existing key answers. */
  function ExistingAnswer(rows: Table, c: Command): Result<RecordResult, InboxError> {
    if StoresSame(rows, c) then Ok(AlreadyRecorded) else Err(IdempotencyConflict)
  }

  /** What a `record` that nothing else interleaves with answers. */
  function RecordAnswer(rows: Table, c: Command, scopeQuota: nat, capacity: nat): Result<RecordResult, InboxError> {
    if !IsRecordable(c) then Err(InvalidCommand)
    else if HasKey(rows, KeyOf(c)) then ExistingAnswer(rows, c)
    else if |ScopeRows(rows, ScopeOf(c))| >= scopeQuota || |rows| >= capacity then Err(Capacity)
    else Ok(Recorded)
  }

  /** Sequences lie in 1..nextSeq-1 and no two rows share a key. */
  ghost predicate WellFormed(rows: Table, nextSeq: nat) {
    && 1 <= nextSeq
    && (forall s :: s in rows ==> 1 <= s < nextSeq)
    && (forall s, t :: s in rows && t in rows && KeyOf(rows[s].command) == KeyOf(rows[t].command) ==> s == t)
  }

  /** Stored commands passed the recording grammar and carry no attempt count of their own. */
  ghost predicate StoredRecordable(rows: Table) {
    forall s :: s in rows ==> IsRecordable(rows[s].command) && rows[s].command.deliveryAttempt == 0
  }

  ghost predicate AttemptsUnset(rows: Table) {
    forall s :: s in rows ==> rows[s].command.deliveryAttempt == 0
  }

  /** A command of this workspace, namespace and id is stored. */
  predicate NameStored(rows: Table, c: Command) {
    exists s :: s in rows && SameName(rows[s].command, c)
  }

  /** This very command is stored. */
  predicate CommandStored(rows: Table, c: Command) {
    exists s :: s in rows && SameFields(rows[s].command, c)
  }

  function ScopeSize(rows: Table, workspaceId: string, namespaceId: string): nat {
    |set s | s in rows && InScope(rows[s].command, workspaceId, namespaceId)|
  }

  lemma ScopeSizeCounts(rows: Table, workspaceId: string, namespaceId: string)
    ensures ScopeSize(rows, workspaceId, namespaceId) == |ScopeRows(rows, Scope(workspaceId, namespaceId))|
  {
    assert (set s | s in rows && InScope(rows[s].command, workspaceId, namespaceId))
        == ScopeRows(rows, Scope(workspaceId, namespaceId));
  }

  lemma StoredByName(rows: Table, nextSeq: nat, c: Command)
    requires WellFormed(rows, nextSeq) && AttemptsUnset(rows)
    ensures HasKey(rows, KeyOf(c)) <==> NameStored(rows, c)
    ensures StoresSame(rows, c) <==> CommandStored(rows, c)
  {
    if NameStored(rows, c) {
      var s :| s in rows && SameName(rows[s].command, c);
      assert KeyOf(rows[s].command) == KeyOf(c);
    }
    if HasKey(rows, KeyOf(c)) {
      var s :| s in rows && KeyOf(rows[s].command) == KeyOf(c);
      assert SameName(rows[s].command, c);
    }
    if CommandStored(rows, c) {
      var s :| s in rows && SameFields(rows[s].command, c);
      assert KeyOf(rows[s].command) == KeyOf(c) && rows[s].command == Semantic(c);
    }
    if StoresSame(rows, c) {
      var s :| s in rows && KeyOf(rows[s].command) == KeyOf(c) && rows[s].command == Semantic(c);
      assert SameFields(rows[s].command, c);
    }
  }

  /** Which of the five answers an undisturbed `record` gets, read off the table. */
  lemma RecordAnswersExactly(rows: Table, nextSeq: nat, c: Command, scopeQuota: nat, capacity: nat)
    requires WellFormed(rows, nextSeq) && AttemptsUnset(rows)
    ensures var r := RecordAnswer(rows, c, scopeQuota, capacity);
            var room := ScopeSize(rows, c.workspaceId, c.namespaceId) < scopeQuota && |rows| < capacity;
            && (r == Err(InvalidCommand) <==> !IsRecordable(c))
            && (r == Ok(AlreadyRecorded) <==> IsRecordable(c) && CommandStored(rows, c))
            && (r == Err(IdempotencyConflict) <==>
                  IsRecordable(c) && NameStored(rows, c) && !CommandStored(rows, c))
            && (r == Err(Capacity) <==> IsRecordable(c) && !NameStored(rows, c) && !room)
            && (r == Ok(Recorded) <==> IsRecordable(c) && !NameStored(rows, c) && room)
  {
    StoredByName(rows, nextSeq, c);
    ScopeSizeCounts(rows, c.workspaceId, c.namespaceId);
    if CommandStored(rows, c) {
      var s :| s in rows && SameFields(rows[s].command, c);
      assert SameName(rows[s].command, c);
    }
  }

  /** A statement that touches only delivery columns of surviving rows. */
  ghost predicate SameCommands(before: Table, after: Table) {
    after.Keys <= before.Keys && forall s :: s in after ==> after[s].command == before[s].command
  }

  lemma SameCommandsKeepsUnset(before: Table, after: Table)
    requires AttemptsUnset(before) && SameCommands(before, after)
    ensures AttemptsUnset(after)
  {
    forall s | s in after ensures after[s].command.deliveryAttempt == 0 {
      assert after[s].command == before[s].command;
    }
  }

  lemma SameCommandsKeepsWellFormed(before: Table, after: Table, nextSeq: nat)
    requires WellFormed(before, nextSeq) && SameCommands(before, after)
    ensures WellFormed(after, nextSeq)
  {
    forall s, t | s in after && t in after && KeyOf(after[s].command) == KeyOf(after[t].command)
      ensures s == t
    {
      assert s in before && t in before;
    }
  }
}
