/** The finding store as an object: every method keeps it reachable, and so sound. */
module FindingStore {
  import opened Common
  import opened Findings
  import opened FindingModel
  import opened FindingHistory
  import opened FindingAppends

  /** The log entry says who moved which finding from where to where, with what action and when. */
  predicate Records(u: Update, c: Change) {
    && u.findingId == c.findingId && u.from == c.expected && u.to == c.to && u.action == c.action
    && u.actorScope == c.actorScope && u.actorSubject == c.actorSubject && c.now == Some(u.atMs)
  }

  /** What a status change leaves behind: on success the named finding moves and no other does. */
  ghost predicate Moved(before: seq<Update>, after: seq<Update>, c: Change, accepted: bool) {
    if accepted then
      && |after| == |before| + 1 && before <= after && Records(after[|before|], c)
      && StatusIn(before, c.findingId) == c.expected
      && StatusIn(after, c.findingId) == c.to
      && (forall id :: id != c.findingId ==> StatusIn(after, id) == StatusIn(before, id))
    else
      after == before
  }

  class SecurityStore {
    const scopeCapacity: nat
    const globalCapacity: nat
    const hash: string -> string
    var findings: seq<Finding>
    var updates: seq<Update>
    var byId: map<string, nat>
    var byFingerprint: map<FingerprintKey, string>
    var scopeCounts: map<ScopeKey, nat>

    function Contents(): Store
      reads this
    {
      Store(scopeCapacity, globalCapacity, findings, updates, byId, byFingerprint, scopeCounts)
    }

    /** The quotas make sense, and the contents are among those the calls below can lead to. */
    ghost predicate Valid()
      reads this
    {
      ValidQuotas(scopeCapacity, globalCapacity) && Reachable(hash, Contents())
    }

    constructor (scopeCapacity: nat, globalCapacity: nat, hash: string -> string)
      requires ValidQuotas(scopeCapacity, globalCapacity)
      ensures Valid() && this.hash == hash
      ensures Contents() == Empty(scopeCapacity, globalCapacity)
    {
      this.scopeCapacity := scopeCapacity;
      this.globalCapacity := globalCapacity;
      this.hash := hash;
      findings, updates, byId, byFingerprint, scopeCounts := [], [], map[], map[], map[];
      new;
      FreshIsReachable(hash, scopeCapacity, globalCapacity);
    }

    /** Opens an empty store, or refuses quotas that make no sense. */
    static method WithQuotas(scopeCapacity: nat, globalCapacity: nat, hash: string -> string)
      returns (r: Result<SecurityStore, StoreError>)
      ensures r.Ok? <==> 0 < scopeCapacity <= globalCapacity <= 1_000_000
      ensures r.Err? ==> r.error == Capacity
      ensures r.Ok? ==> fresh(r.value) && r.value.Valid() && r.value.hash == hash
      ensures r.Ok? ==> r.value.Contents() == Empty(scopeCapacity, globalCapacity)
    {
      if scopeCapacity == 0 || globalCapacity == 0 || scopeCapacity > globalCapacity || globalCapacity > MAX_FINDINGS {
        return Err(Capacity);
      }
      var store := new SecurityStore(scopeCapacity, globalCapacity, hash);
      return Ok(store);
    }

    /** Stores a new valid finding, or answers without changing anything. */
    method Append(f: Finding) returns (r: Result<bool, StoreError>)
      requires Valid()
      modifies this
      ensures r == AppendResult(old(Contents()), f, IsValid(f, hash))
      ensures Contents() == AppendStore(old(Contents()), f, IsValid(f, hash))
      ensures r == Ok(true) ==> findings == old(findings) + [f] && updates == old(updates)
      ensures r != Ok(true) ==> Contents() == old(Contents())
      ensures Valid()
      ensures AnsweredExactly(old(Contents()), hash, f, r)
    {
      AnsweredExactlyWhenReachable(hash, Contents(), f);
      NextIsReachable(hash, Contents(), AppendOp(f));
      var valid := ValidateFinding(f, hash);
      if !valid {
        return Err(InvalidField);
      }
      r := AppendValidated(f);
    }

    /** The part of `Append` after validation. */
    method AppendValidated(f: Finding) returns (r: Result<bool, StoreError>)
      modifies this
      ensures r == AppendResult(old(Contents()), f, true)
      ensures Contents() == AppendStore(old(Contents()), f, true)
      ensures r == Ok(true) ==> findings == old(findings) + [f] && updates == old(updates)
      ensures r != Ok(true) ==> Contents() == old(Contents())
    {
      if f.findingId in byId {
        if byId[f.findingId] < |findings| && findings[byId[f.findingId]] == f {
          return Ok(false);
        }
        return Err(DuplicateId);
      }
      var key := KeyOf(f);
      if key in byFingerprint {
        var id := byFingerprint[key];
        if id !in byId || byId[id] >= |findings| {
          return Err(FingerprintConflict);
        }
        if LogicallyEqual(findings[byId[id]], f) {
          return Ok(false);
        }
        return Err(FingerprintConflict);
      }
      if |findings| >= globalCapacity {
        return Err(Capacity);
      }
      var scope := ScopeOf(f);
      if CountOf(scopeCounts, scope) >= scopeCapacity {
        return Err(Capacity);
      }
      byFingerprint := byFingerprint[key := f.findingId];
      byId := byId[f.findingId := |findings|];
      scopeCounts := scopeCounts[scope := CountOf(scopeCounts, scope) + 1];
      findings := findings + [f];
      return Ok(true);
    }

    /** The newest log entry of the finding, searched from the end. */
    method CurrentStatus(id: string) returns (r: Result<Status, StoreError>)
      ensures r == if id in byId then Ok(StatusIn(updates, id)) else Err(NotFound)
    {
      if id !in byId {
        return Err(NotFound);
      }
      var n := |updates|;
      assert updates[..n] == updates;
      while n > 0
        invariant 0 <= n <= |updates|
        invariant StatusIn(updates[..n], id) == StatusIn(updates, id)
      {
        assert updates[..n][..n - 1] == updates[..n - 1];
        if updates[n - 1].findingId == id {
          return Ok(updates[n - 1].to);
        }
        n := n - 1;
      }
      return Ok(Open);
    }

    method TransitionReplayed(c: Change) returns (r: Result<(), StoreError>)
      requires Valid()
      modifies this`updates
      ensures r == ReplayResult(old(Contents()), c) && r != Err(Capacity)
      ensures Contents() == ReplayStore(old(Contents()), c)
      ensures Moved(old(updates), updates, c, r.Ok?)
      ensures Valid()
    {
      if c.actorSubject == "" || !ValidActorScope(c.actorScope) {
        return Err(ScopeDenied);
      }
      NeverFullWhenReachable(hash, Contents(), c);
      NextIsReachable(hash, Contents(), ReplayOp(c));
      r := TransitionInternal(c);
    }

    method Transition(c: Change, subject: Option<string>, allows: string -> bool) returns (r: Result<(), StoreError>)
      requires Valid()
      modifies this`updates
      ensures r == TransitionResult(old(Contents()), c, subject, allows) && r != Err(Capacity)
      ensures r.Ok? ==> subject.Some? && allows(c.actorScope)
      ensures r.Ok? ==> Contents() == ReplayStore(old(Contents()), c.(actorSubject := subject.value))
      ensures Moved(old(updates), updates, if r.Ok? then c.(actorSubject := subject.value) else c, r.Ok?)
      ensures Valid()
    {
      if !ValidActorScope(c.actorScope) {
        return Err(ScopeDenied);
      }
      if subject.None? || subject.value == "" {
        return Err(ScopeDenied);
      }
      if !allows(c.actorScope) {
        return Err(ScopeDenied);
      }
      var named := c.(actorSubject := subject.value);
      NeverFullWhenReachable(hash, Contents(), named);
      NextIsReachable(hash, Contents(), ReplayOp(named));
      r := TransitionInternal(named);
    }

    /** Everything a status change is refused for before the log is looked at. */
    method CheckChange(c: Change) returns (r: Result<(), StoreError>)
      ensures r == Checked(Contents(), c)
      ensures r.Ok? ==> c.findingId in byId && StatusIn(updates, c.findingId) == c.expected
      ensures r.Ok? ==> AllowedTransition(c.expected, c.to)
    {
      if c.findingId !in byId || byId[c.findingId] >= |findings| {
        return Err(NotFound);
      }
      var f := findings[byId[c.findingId]];
      if !(IsIdentifier(f.workspaceId) && IsIdentifier(f.namespaceId)) {
        return Err(InvalidField);
      }
      if c.actorScope != ScopeText(f) {
        return Err(ScopeDenied);
      }
      var current := CurrentStatus(c.findingId);
      if current.value != c.expected || !AllowedTransition(current.value, c.to) {
        return Err(InvalidTransition);
      }
      if (c.to.Contained? || c.to.Resolved?) && c.action.None? {
        return Err(InvalidTransition);
      }
      return Ok(());
    }

    /** The part shared by both callers. */
    method TransitionInternal(c: Change) returns (r: Result<(), StoreError>)
      modifies this`updates
      ensures r == InternalResult(old(Contents()), c)
      ensures r.Ok? ==> c.now.Some? && updates == old(updates) + [Logged(c, c.now.value)]
      ensures Moved(old(updates), updates, c, r.Ok?)
    {
      r := CheckChange(c);
      if r.Err? {
        return;
      }
      if |updates| >= globalCapacity * MAX_STATUS_UPDATES_PER_FINDING {
        return Err(Capacity);
      }
      if c.now.None? {
        return Err(ClockUnavailable);
      }
      LoggedMovesOne(updates, c, c.now.value);
      updates := updates + [Logged(c, c.now.value)];
      return Ok(());
    }
  }

  lemma NeverFullWhenReachable(hash: string -> string, s: Store, c: Change)
    requires Reachable(hash, s)
    ensures InternalResult(s, c) != Err(Capacity)
  {
    ReachableIsSound(hash, s);
    NeverFull(Validator(hash), s, c);
  }

  lemma AnsweredExactlyWhenReachable(hash: string -> string, s: Store, f: Finding)
    requires Reachable(hash, s)
    ensures AnsweredExactly(s, hash, f, AppendResult(s, f, IsValid(f, hash)))
  {
    ReachableIsSound(hash, s);
    AnsweredExactlyInSoundStore(s, hash, f);
  }

  lemma LoggedMovesOne(updates: seq<Update>, c: Change, atMs: nat)
    requires StatusIn(updates, c.findingId) == c.expected && c.now == Some(atMs)
    ensures Moved(updates, updates + [Logged(c, atMs)], c, true)
  {
    forall id ensures id != c.findingId ==> StatusIn(updates + [Logged(c, atMs)], id) == StatusIn(updates, id) {
      StatusAfter(updates, Logged(c, atMs), id);
    }
    StatusAfter(updates, Logged(c, atMs), c.findingId);
  }
}
