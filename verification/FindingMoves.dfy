/** Exactly which status changes a reachable store accepts, and which refusal any other one gets. */
module FindingMoves {
  import opened Common
  import opened Findings
  import opened FindingModel
  import opened FindingHistory
  import opened FindingScopes

  /** The seven steps of a finding's life. */
  predicate IsLifeStep(from: Status, to: Status) {
    || (from.Open? && to.Acknowledged?)
    || (from.Open? && to.Contained?)
    || (from.Open? && to.FalsePositive?)
    || (from.Acknowledged? && to.Contained?)
    || (from.Acknowledged? && to.Resolved?)
    || (from.Acknowledged? && to.FalsePositive?)
    || (from.Contained? && to.Resolved?)
  }

  /** A named actor in the finding's own scope, which must be short enough to be named. */
  predicate RightActor(f: Finding, c: Change) {
    && c.actorSubject != ""
    && c.actorScope == f.workspaceId + "/" + f.namespaceId && |c.actorScope| <= 256
  }

  /** From the status the finding has, along a step of its life, with an action where one is needed. */
  predicate RightStep(current: Status, c: Change) {
    && c.expected == current && IsLifeStep(current, c.to)
    && (c.to.Contained? || c.to.Resolved? ==> c.action.Some?)
  }

  ghost predicate ChangeAnsweredExactly(f: Finding, current: Status, c: Change, r: Result<(), StoreError>) {
    && (r == Err(ScopeDenied) <==> !RightActor(f, c))
    && (r == Err(InvalidTransition) <==> RightActor(f, c) && !RightStep(current, c))
    && (r == Err(ClockUnavailable) <==> RightActor(f, c) && RightStep(current, c) && c.now.None?)
    && (r.Ok? <==> RightActor(f, c) && RightStep(current, c) && c.now.Some?)
  }

  lemma TransitionsAreLifeSteps(from: Status, to: Status)
    ensures AllowedTransition(from, to) <==> IsLifeStep(from, to)
  {
  }

  lemma CheckedExactly(s: Store, i: nat, c: Change)
    requires IdsIndexed(s) && i < |s.findings| && s.findings[i].findingId == c.findingId
    requires IsIdentifier(s.findings[i].workspaceId) && IsIdentifier(s.findings[i].namespaceId)
    ensures Checked(s, c) ==
            if c.actorScope != ScopeText(s.findings[i]) then Err(ScopeDenied)
            else if !RightStep(StatusIn(s.updates, c.findingId), c) then Err(InvalidTransition)
            else Ok(())
  {
    TransitionsAreLifeSteps(c.expected, c.to);
  }

  lemma RightActorIsValid(f: Finding, c: Change)
    requires IsIdentifier(f.workspaceId) && IsIdentifier(f.namespaceId)
    ensures RightActor(f, c) <==> c.actorSubject != "" && ValidActorScope(c.actorScope) && c.actorScope == ScopeText(f)
  {
    OwnScopeIsValid(f);
  }

  lemma ChangeInSoundStore(hash: string -> string, s: Store, i: nat, c: Change)
    requires Sound(Validator(hash), s) && i < |s.findings| && s.findings[i].findingId == c.findingId
    ensures ChangeAnsweredExactly(s.findings[i], StatusIn(s.updates, c.findingId), c, ReplayResult(s, c))
  {
    StoredScopesAreIdentifiers(hash, s, i);
    CheckedExactly(s, i, c);
    RightActorIsValid(s.findings[i], c);
    NeverFull(Validator(hash), s, c);
  }

  /**
   * In every reachable store a status change of a stored finding is accepted,
   * or refused for its actor, its step or the clock, exactly as stated; there
   * is no other refusal.
   */
  lemma {:induction false} ChangeAnswersExactly(
    hash: string -> string, scopeCapacity: nat, globalCapacity: nat, ops: seq<Op>, i: nat, c: Change)
    requires var s := RunOps(Validator(hash), Empty(scopeCapacity, globalCapacity), ops);
             i < |s.findings| && s.findings[i].findingId == c.findingId
    ensures var s := RunOps(Validator(hash), Empty(scopeCapacity, globalCapacity), ops);
            ChangeAnsweredExactly(s.findings[i], StatusIn(s.updates, c.findingId), c, ReplayResult(s, c))
  {
    EveryStoreIsSound(Validator(hash), scopeCapacity, globalCapacity, ops);
    ChangeInSoundStore(hash, RunOps(Validator(hash), Empty(scopeCapacity, globalCapacity), ops), i, c);
  }

  ghost predicate IdUnknown(s: Store, id: string) {
    forall i :: 0 <= i < |s.findings| ==> s.findings[i].findingId != id
  }

  lemma NotFoundExactly(s: Store, c: Change)
    requires IdsIndexed(s)
    ensures ReplayResult(s, c) == Err(NotFound) <==>
            c.actorSubject != "" && ValidActorScope(c.actorScope) && IdUnknown(s, c.findingId)
  {
  }

  /** A finding nobody stored is not found, once the actor has a name and a scope. */
  lemma {:induction false} UnknownIsNotFound(
    hash: string -> string, scopeCapacity: nat, globalCapacity: nat, ops: seq<Op>, c: Change)
    ensures var s := RunOps(Validator(hash), Empty(scopeCapacity, globalCapacity), ops);
            ReplayResult(s, c) == Err(NotFound) <==>
            c.actorSubject != "" && ValidActorScope(c.actorScope) && IdUnknown(s, c.findingId)
  {
    EveryStoreIsSound(Validator(hash), scopeCapacity, globalCapacity, ops);
    NotFoundExactly(RunOps(Validator(hash), Empty(scopeCapacity, globalCapacity), ops), c);
  }

  /** The caller's own entry point asks the credential first and is then the same. */
  lemma CredentialDecidesFirst(s: Store, c: Change, subject: Option<string>, allows: string -> bool)
    ensures TransitionResult(s, c, subject, allows) ==
            if subject.None? || subject == Some("") || !allows(c.actorScope) then Err(ScopeDenied)
            else ReplayResult(s, c.(actorSubject := subject.value))
  {
  }
}
