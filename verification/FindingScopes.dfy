/**
 * Which findings can change status at all. The scope named by a change is at
 * most 256 bytes, while a finding's two scope identifiers may each be that long.
 */
module FindingScopes {
  import opened Common
  import opened Findings
  import opened FindingModel
  import opened FindingHistory

  lemma {:induction false} SplitsAtTheSlash(workspace: string, namespace: string)
    requires IdentifierTail(workspace)
    ensures SplitScope(workspace + "/" + namespace) == Some((workspace, namespace))
  {
    var s := workspace + "/" + namespace;
    if workspace == [] {
      assert s[1..] == namespace;
    } else {
      assert s[0] == workspace[0] && s[1..] == workspace[1..] + "/" + namespace;
      assert workspace == [workspace[0]] + workspace[1..];
      SplitsAtTheSlash(workspace[1..], namespace);
    }
  }

  lemma {:induction false} IdentifiersPrint(s: string)
    requires IdentifierTail(s)
    ensures AllChars(s, IsPrintable)
  {
    if s != [] {
      IdentifiersPrint(s[1..]);
    }
  }

  lemma {:induction false} AllCharsOfConcat(a: string, b: string, p: char -> bool)
    ensures AllChars(a + b, p) <==> AllChars(a, p) && AllChars(b, p)
  {
    if a == [] {
      assert a + b == b;
    } else {
      assert (a + b)[1..] == a[1..] + b;
      AllCharsOfConcat(a[1..], b, p);
    }
  }

  /** The scope of a finding is a valid actor scope exactly when it is short enough. */
  lemma OwnScopeIsValid(f: Finding)
    requires IsIdentifier(f.workspaceId) && IsIdentifier(f.namespaceId)
    ensures ValidActorScope(ScopeText(f)) <==> |f.workspaceId| + 1 + |f.namespaceId| <= MAX_ACTOR_SCOPE_BYTES
  {
    SplitsAtTheSlash(f.workspaceId, f.namespaceId);
    IdentifiersPrint(f.workspaceId);
    IdentifiersPrint(f.namespaceId);
    AllCharsOfConcat(f.workspaceId + "/", f.namespaceId, IsPrintable);
    AllCharsOfConcat(f.workspaceId, "/", IsPrintable);
    assert AllChars("/", IsPrintable);
  }

  ghost predicate MovesExactlyWhen(s: Store, i: nat)
    requires i < |s.findings|
  {
    var f, status := s.findings[i], StatusIn(s.updates, s.findings[i].findingId);
    CanMove(s, f.findingId) <==>
    && |f.workspaceId| + 1 + |f.namespaceId| <= MAX_ACTOR_SCOPE_BYTES
    && !status.Resolved? && !status.FalsePositive?
  }

  /** Some status change of this finding would be accepted now. */
  ghost predicate CanMove(s: Store, id: string) {
    exists c: Change :: c.findingId == id && ReplayResult(s, c).Ok?
  }

  function Next(s: Status): Status {
    match s
    case Open => Acknowledged
    case Acknowledged => Contained
    case _ => Resolved
  }

  lemma ShortScopeCanMove(check: Finding -> bool, s: Store, i: nat)
    requires Sound(check, s) && i < |s.findings|
    requires ValidActorScope(ScopeText(s.findings[i]))
    requires IsIdentifier(s.findings[i].workspaceId) && IsIdentifier(s.findings[i].namespaceId)
    requires Rank(StatusIn(s.updates, s.findings[i].findingId)) < 3
    ensures CanMove(s, s.findings[i].findingId)
  {
    var f := s.findings[i];
    var status := StatusIn(s.updates, f.findingId);
    var c := Change(f.findingId, status, Next(status), ScopeText(f), "operator", Some(Pause), Some(0));
    assert Checked(s, c).Ok?;
    AllowedChangeHasRoom(check, s, c);
    assert ReplayResult(s, c).Ok?;
  }

  lemma MovableIsShort(check: Finding -> bool, s: Store, i: nat)
    requires Sound(check, s) && i < |s.findings| && CanMove(s, s.findings[i].findingId)
    ensures ValidActorScope(ScopeText(s.findings[i]))
    ensures Rank(StatusIn(s.updates, s.findings[i].findingId)) < 3
  {
    var c: Change :| c.findingId == s.findings[i].findingId && ReplayResult(s, c).Ok?;
    assert s.byId[c.findingId] == i;
  }

  lemma ScopeAndStatusDecide(check: Finding -> bool, s: Store, i: nat)
    requires Sound(check, s) && i < |s.findings|
    requires IsIdentifier(s.findings[i].workspaceId) && IsIdentifier(s.findings[i].namespaceId)
    ensures MovesExactlyWhen(s, i)
  {
    OwnScopeIsValid(s.findings[i]);
    if CanMove(s, s.findings[i].findingId) {
      MovableIsShort(check, s, i);
    } else if ValidActorScope(ScopeText(s.findings[i])) && Rank(StatusIn(s.updates, s.findings[i].findingId)) < 3 {
      ShortScopeCanMove(check, s, i);
    }
  }

  lemma StoredScopesAreIdentifiers(hash: string -> string, s: Store, i: nat)
    requires AllChecked(Validator(hash), s.findings) && i < |s.findings|
    ensures IsIdentifier(s.findings[i].workspaceId) && IsIdentifier(s.findings[i].namespaceId)
  {
    assert Validator(hash)(s.findings[i]);
  }

  /**
   * In every reachable store a finding can still change status if and only if
   * its scope fits an actor scope and its status is not a final one.
   */
  lemma {:induction false} CanMoveExactlyWhen(
    hash: string -> string, scopeCapacity: nat, globalCapacity: nat, ops: seq<Op>, i: nat)
    requires i < |RunOps(Validator(hash), Empty(scopeCapacity, globalCapacity), ops).findings|
    ensures MovesExactlyWhen(RunOps(Validator(hash), Empty(scopeCapacity, globalCapacity), ops), i)
  {
    var s := RunOps(Validator(hash), Empty(scopeCapacity, globalCapacity), ops);
    EveryStoreIsSound(Validator(hash), scopeCapacity, globalCapacity, ops);
    StoredScopesAreIdentifiers(hash, s, i);
    ScopeAndStatusDecide(Validator(hash), s, i);
  }

  lemma {:induction false} NoEntryMeansOpen(updates: seq<Update>, id: string)
    requires forall n :: 0 <= n < |updates| ==> updates[n].findingId != id
    ensures StatusIn(updates, id).Open?
  {
    if updates != [] {
      NoEntryMeansOpen(updates[..|updates| - 1], id);
    }
  }

  lemma EntriesNameShortScopes(check: Finding -> bool, s: Store, i: nat, n: nat)
    requires Sound(check, s) && i < |s.findings| && n < |s.updates|
    ensures s.updates[n].findingId == s.findings[i].findingId ==> |ScopeText(s.findings[i])| <= MAX_ACTOR_SCOPE_BYTES
  {
    assert LegalAt(s, n);
  }

  /** A finding whose scope is too long to be named stays Open in every reachable store. */
  lemma {:induction false} LongScopeStaysOpen(
    check: Finding -> bool, scopeCapacity: nat, globalCapacity: nat, ops: seq<Op>, i: nat)
    requires i < |RunOps(check, Empty(scopeCapacity, globalCapacity), ops).findings|
    requires var f := RunOps(check, Empty(scopeCapacity, globalCapacity), ops).findings[i];
             |f.workspaceId| + 1 + |f.namespaceId| > MAX_ACTOR_SCOPE_BYTES
    ensures var s := RunOps(check, Empty(scopeCapacity, globalCapacity), ops);
            StatusIn(s.updates, s.findings[i].findingId).Open?
  {
    var s := RunOps(check, Empty(scopeCapacity, globalCapacity), ops);
    EveryStoreIsSound(check, scopeCapacity, globalCapacity, ops);
    forall n | 0 <= n < |s.updates| ensures s.updates[n].findingId != s.findings[i].findingId {
      EntriesNameShortScopes(check, s, i, n);
    }
    NoEntryMeansOpen(s.updates, s.findings[i].findingId);
  }

  lemma FirstIsStored(hash: string -> string, f: Finding)
    requires IsValid(f, hash)
    ensures RunOps(Validator(hash), Empty(1, 1), [AppendOp(f)]).findings == [f]
  {
    assert [AppendOp(f)][..0] == [];
    assert Validator(hash)(f);
  }

  /** Such findings are real: a valid one is stored by the first call and can never change status. */
  lemma LongScopeIsStoredForGood(hash: string -> string, f: Finding)
    requires IsValid(f, hash) && |f.workspaceId| + 1 + |f.namespaceId| > MAX_ACTOR_SCOPE_BYTES
    ensures var s := RunOps(Validator(hash), Empty(1, 1), [AppendOp(f)]);
            s.findings == [f] && !CanMove(s, f.findingId)
  {
    FirstIsStored(hash, f);
    CanMoveExactlyWhen(hash, 1, 1, [AppendOp(f)], 0);
  }
}
