/** The append-only finding store as a value: three indexes, quotas and a status log. */
module FindingModel {
  import opened Common
  import opened Findings

  const MAX_FINDINGS: nat := 1_000_000
  const MAX_STATUS_UPDATES_PER_FINDING: nat := 3

  datatype Update = Update(
    findingId: string,
    from: Status,
    to: Status,
    action: Option<Containment>,
    actorScope: string,
    actorSubject: string,
    atMs: nat)

  datatype StoreError =
    | Capacity | DuplicateId | FingerprintConflict | NotFound | ScopeDenied
    | InvalidTransition | InvalidField | ClockUnavailable

  datatype FingerprintKey = FingerprintKey(workspaceId: string, namespaceId: string, fingerprint: string)
  datatype ScopeKey = ScopeKey(workspaceId: string, namespaceId: string)

  /** The contents of a store: a vector, its three redundant indexes and the status log. */
  datatype Store = Store(
    scopeCapacity: nat,
    globalCapacity: nat,
    findings: seq<Finding>,
    updates: seq<Update>,
    byId: map<string, nat>,
    byFingerprint: map<FingerprintKey, string>,
    scopeCounts: map<ScopeKey, nat>)

  /** A requested status change, with the clock reading it would be stamped with. */
  datatype Change = Change(
    findingId: string,
    expected: Status,
    to: Status,
    actorScope: string,
    actorSubject: string,
    action: Option<Containment>,
    now: Option<nat>)

  function KeyOf(f: Finding): FingerprintKey {
    FingerprintKey(f.workspaceId, f.namespaceId, f.fingerprint)
  }

  function ScopeOf(f: Finding): ScopeKey {
    ScopeKey(f.workspaceId, f.namespaceId)
  }

  function ScopeText(f: Finding): string {
    f.workspaceId + "/" + f.namespaceId
  }

  function MaxUpdates(s: Store): nat {
    s.globalCapacity * MAX_STATUS_UPDATES_PER_FINDING
  }

  predicate ValidQuotas(scopeCapacity: nat, globalCapacity: nat) {
    0 < scopeCapacity <= globalCapacity <= MAX_FINDINGS
  }

  function Empty(scopeCapacity: nat, globalCapacity: nat): Store {
    Store(scopeCapacity, globalCapacity, [], [], map[], map[], map[])
  }

  function CountOf(counts: map<ScopeKey, nat>, k: ScopeKey): nat {
    if k in counts then counts[k] else 0
  }

  /** What `append` answers; `valid` is the verdict of validation. */
  function AppendResult(s: Store, f: Finding, valid: bool): Result<bool, StoreError> {
    if !valid then Err(InvalidField)
    else if f.findingId in s.byId then
      if s.byId[f.findingId] < |s.findings| && s.findings[s.byId[f.findingId]] == f then Ok(false)
      else Err(DuplicateId)
    else if KeyOf(f) in s.byFingerprint then
      var id := s.byFingerprint[KeyOf(f)];
      if id in s.byId && s.byId[id] < |s.findings| && LogicallyEqual(s.findings[s.byId[id]], f) then Ok(false)
      else Err(FingerprintConflict)
    else if |s.findings| >= s.globalCapacity then Err(Capacity)
    else if CountOf(s.scopeCounts, ScopeOf(f)) >= s.scopeCapacity then Err(Capacity)
    else Ok(true)
  }

  function Added(s: Store, f: Finding): Store {
    s.(byFingerprint := s.byFingerprint[KeyOf(f) := f.findingId],
       byId := s.byId[f.findingId := |s.findings|],
       scopeCounts := s.scopeCounts[ScopeOf(f) := CountOf(s.scopeCounts, ScopeOf(f)) + 1],
       findings := s.findings + [f])
  }

  function AppendStore(s: Store, f: Finding, valid: bool): Store {
    if AppendResult(s, f, valid) == Ok(true) then Added(s, f) else s
  }

  /** The status the log gives a finding: that of its newest entry, Open without one. */
  function StatusIn(updates: seq<Update>, id: string): Status {
    if updates == [] then Open
    else if updates[|updates| - 1].findingId == id then updates[|updates| - 1].to
    else StatusIn(updates[..|updates| - 1], id)
  }

  /** Everything `transition_internal` checks before it looks at the log's capacity. */
  function Checked(s: Store, c: Change): Result<(), StoreError> {
    if c.findingId !in s.byId || s.byId[c.findingId] >= |s.findings| then Err(NotFound)
    else
      var f := s.findings[s.byId[c.findingId]];
      if !(IsIdentifier(f.workspaceId) && IsIdentifier(f.namespaceId)) then Err(InvalidField)
      else if c.actorScope != ScopeText(f) then Err(ScopeDenied)
      else if StatusIn(s.updates, c.findingId) != c.expected || !AllowedTransition(c.expected, c.to)
      then Err(InvalidTransition)
      else if (c.to.Contained? || c.to.Resolved?) && c.action.None? then Err(InvalidTransition)
      else Ok(())
  }

  function InternalResult(s: Store, c: Change): Result<(), StoreError> {
    if Checked(s, c).Err? then Checked(s, c)
    else if |s.updates| >= MaxUpdates(s) then Err(Capacity)
    else if c.now.None? then Err(ClockUnavailable)
    else Ok(())
  }

  function Logged(c: Change, atMs: nat): Update {
    Update(c.findingId, c.expected, c.to, c.action, c.actorScope, c.actorSubject, atMs)
  }

  /** The replay entry point: an authenticated journal record, not a caller. */
  function ReplayResult(s: Store, c: Change): Result<(), StoreError> {
    if c.actorSubject == "" || !ValidActorScope(c.actorScope) then Err(ScopeDenied) else InternalResult(s, c)
  }

  function ReplayStore(s: Store, c: Change): Store {
    if ReplayResult(s, c).Ok? && c.now.Some? then s.(updates := s.updates + [Logged(c, c.now.value)]) else s
  }

  /** The caller's own entry point also asks the credential. */
  function TransitionResult(s: Store, c: Change, subject: Option<string>, allows: string -> bool)
    : Result<(), StoreError>
  {
    if !ValidActorScope(c.actorScope) then Err(ScopeDenied)
    else if subject.None? || subject.value == "" then Err(ScopeDenied)
    else if !allows(c.actorScope) then Err(ScopeDenied)
    else InternalResult(s, c.(actorSubject := subject.value))
  }
}
